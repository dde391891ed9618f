/** Transcript merge (conversations/conversations.go): a multiset merge by signature, a stable sort,
    and two passes that drop superseded events. */
module Conversations {
  import Text
  import opened Sequences
  import opened Sorting

  datatype Event = Event(kind: string, text: string, name: string, createdAt: int, runId: string)

  function Signature(e: Event): string { e.kind + "\0" + e.text + "\0" + e.name }

  /** The signatures of a list of events, with their counts. */
  function SignatureBag(events: seq<Event>): multiset<string> {
    if events == [] then multiset{} else multiset{Signature(events[0])} + SignatureBag(events[1..])
  }

  /** The client events that find no server event of their signature left to match. */
  function Unmatched(available: multiset<string>, client: seq<Event>): seq<Event> {
    if client == [] then []
    else
      var sig := Signature(client[0]);
      if sig in available then Unmatched(available - multiset{sig}, client[1..])
      else [client[0]] + Unmatched(available, client[1..])
  }

  /** Earlier first; at the same time, events the server has before events only the client has. */
  function Before(serverSigs: set<string>): (Event, Event) -> bool {
    (a: Event, b: Event) =>
      if a.createdAt != b.createdAt then a.createdAt < b.createdAt
      else Signature(a) in serverSigs && Signature(b) !in serverSigs
  }

  function SignatureSet(events: seq<Event>): set<string> { set e | e in events :: Signature(e) }

  /** The merged transcript before superseding. */
  function Collated(server: seq<Event>, client: seq<Event>): seq<Event> {
    StableSort(Before(SignatureSet(server)), server + Unmatched(SignatureBag(server), client))
  }

  function ReplacementRun(name: string): string {
    if Text.HasPrefix(name, "repl:") && |name| > 5 then name[5..] else ""
  }

  /** The run of a name "run:<id>:<rest>", "" for every other name. */
  function TerminalRun(name: string): string {
    if !Text.HasPrefix(name, "run:") then ""
    else
      var rest := name[4..];
      var i := Text.IndexOf(rest, ':');
      if i < |rest| then rest[..i] else ""
  }

  predicate IsReplacement(e: Event) { e.kind == "assistant" && ReplacementRun(e.name) != "" }

  /** Replacement r covers fragment e: same run, and a longer text around e's. */
  predicate Covers(r: Event, e: Event) {
    && IsReplacement(r) && ReplacementRun(r.name) == e.runId
    && Text.TrimSpace(r.text) != Text.TrimSpace(e.text)
    && Text.Contains(Text.TrimSpace(r.text), Text.TrimSpace(e.text))
  }

  predicate IsFragment(e: Event) {
    e.kind == "assistant" && ReplacementRun(e.name) == "" && e.runId != ""
  }

  predicate Superseded(events: seq<Event>, e: Event) {
    IsFragment(e) && exists r :: r in events && Covers(r, e)
  }

  function Without(events: seq<Event>, drop: set<int>): seq<Event> {
    if events == [] then []
    else
      var last := |events| - 1;
      Without(events[..last], drop) + if last in drop then [] else [events[last]]
  }

  function ReplacementDrop(events: seq<Event>): set<int> {
    set i | 0 <= i < |events| && Superseded(events, events[i])
  }

  /** A marker with a later marker of its run. */
  predicate Outdated(events: seq<Event>, i: nat)
    requires i < |events|
  {
    TerminalRun(events[i].name) != "" &&
    exists j :: i < j < |events| && TerminalRun(events[j].name) == TerminalRun(events[i].name)
  }

  function TerminalDrop(events: seq<Event>): set<int> {
    set i | 0 <= i < |events| && Outdated(events, i)
  }

  function Replaced(events: seq<Event>): seq<Event> { Without(events, ReplacementDrop(events)) }

  function Terminated(events: seq<Event>): seq<Event> { Without(events, TerminalDrop(events)) }

  function Merged(server: seq<Event>, client: seq<Event>): seq<Event> {
    Terminated(Replaced(Collated(server, client)))
  }

  // ----- The loops ------------------------------------------------------------------------------

  method MergeEvents(server: seq<Event>, client: seq<Event>) returns (merged: seq<Event>)
    ensures merged == Merged(server, client)
  {
    var available := CountSignatures(server);
    var serverSigs := available.Keys;
    var extra := TakeUnmatched(available, SignatureBag(server), client);
    var collated := StableSort(Before(serverSigs), server + extra);
    var replaced := SupersedeReplacements(collated);
    merged := SupersedeTerminals(replaced);
  }

  method CountSignatures(server: seq<Event>) returns (available: map<string, nat>)
    ensures available.Keys == SignatureSet(server)
    ensures forall sig :: Left(available, sig) == SignatureBag(server)[sig]
  {
    available := map[];
    for i := 0 to |server|
      invariant Counts(available, server[..i])
    {
      var sig := Signature(server[i]);
      TakeSnoc(server, i);
      CountsSnoc(available, server[..i], server[i]);
      available := available[sig := (if sig in available then available[sig] else 0) + 1];
    }
    assert server[..|server|] == server;
  }

  ghost predicate Counts(available: map<string, nat>, events: seq<Event>) {
    && available.Keys == SignatureSet(events)
    && forall sig :: Left(available, sig) == SignatureBag(events)[sig]
  }

  lemma CountsSnoc(available: map<string, nat>, init: seq<Event>, x: Event)
    requires Counts(available, init)
    ensures Counts(available[Signature(x) := Left(available, Signature(x)) + 1], init + [x])
  {
    BagSnoc(init, x);
    SetSnoc(init, x);
    CountOneMore(available, SignatureBag(init), Signature(x));
  }

  lemma SetSnoc(init: seq<Event>, x: Event)
    ensures SignatureSet(init + [x]) == SignatureSet(init) + {Signature(x)}
  {
    assert forall e :: e in init + [x] <==> e in init || e == x;
  }

  lemma CountOneMore(available: map<string, nat>, bag: multiset<string>, sig: string)
    requires forall s :: Left(available, s) == bag[s]
    ensures forall s :: Left(available[sig := Left(available, sig) + 1], s) == (bag + multiset{sig})[s]
  {
  }

  method TakeUnmatched(counts: map<string, nat>, ghost bag: multiset<string>, client: seq<Event>) returns (out: seq<Event>)
    requires forall sig :: Left(counts, sig) == bag[sig]
    ensures out == Unmatched(bag, client)
  {
    var available := counts;
    ghost var left := bag;
    out := [];
    for i := 0 to |client|
      invariant forall sig :: Left(available, sig) == left[sig]
      invariant Unmatched(bag, client) == out + Unmatched(left, client[i..])
    {
      assert client[i..][1..] == client[i + 1..];
      var sig := Signature(client[i]);
      if sig in available && available[sig] > 0 {
        available := available[sig := available[sig] - 1];
        left := left - multiset{sig};
        continue;
      }
      assert sig !in left by { assert Left(available, sig) == 0; }
      out := out + [client[i]];
    }
  }

  function Left(available: map<string, nat>, sig: string): nat {
    if sig in available then available[sig] else 0
  }

  method SupersedeReplacements(events: seq<Event>) returns (out: seq<Event>)
    ensures out == Replaced(events)
  {
    var rs := Replacements(events);
    var drop := CoveredBy(events, rs);
    CoveredIsSuperseded(events, rs);
    out := DropEvents(events, drop);
  }

  /** The fragments that one of rs covers. */
  predicate Covered(rs: seq<Event>, e: Event) {
    IsFragment(e) && exists r :: r in rs && Covers(r, e)
  }

  function CoveredDrop(events: seq<Event>, rs: seq<Event>): set<int> {
    set i | 0 <= i < |events| && Covered(rs, events[i])
  }

  method CoveredBy(events: seq<Event>, rs: seq<Event>) returns (drop: set<int>)
    ensures drop == CoveredDrop(events, rs)
  {
    drop := {};
    for i := 0 to |events|
      invariant forall k :: k in drop <==> 0 <= k < i && Covered(rs, events[k])
    {
      if !IsFragment(events[i]) { continue; }
      var covered := AnyCovers(rs, events[i]);
      if covered { drop := drop + {i}; }
    }
  }

  lemma CoveredIsSuperseded(events: seq<Event>, rs: seq<Event>)
    requires forall r :: r in rs <==> r in events && IsReplacement(r)
    ensures CoveredDrop(events, rs) == ReplacementDrop(events)
  {
    forall e ensures Covered(rs, e) <==> Superseded(events, e) {}
  }

  method Replacements(events: seq<Event>) returns (rs: seq<Event>)
    ensures forall r :: r in rs <==> r in events && IsReplacement(r)
  {
    rs := [];
    for i := 0 to |events|
      invariant forall r :: r in rs <==> r in events[..i] && IsReplacement(r)
    {
      if IsReplacement(events[i]) { rs := rs + [events[i]]; }
    }
    assert events[..|events|] == events;
  }

  method AnyCovers(rs: seq<Event>, e: Event) returns (covered: bool)
    ensures covered <==> exists r :: r in rs && Covers(r, e)
  {
    for k := 0 to |rs|
      invariant forall i :: 0 <= i < k ==> !Covers(rs[i], e)
    {
      if Covers(rs[k], e) { return true; }
    }
    return false;
  }

  /** last holds the last position of a marker of each run among the first n events. */
  ghost predicate LastMarkers(last: map<string, int>, events: seq<Event>, n: nat)
    requires n <= |events|
  {
    && (forall id :: id in last ==> id != "" && 0 <= last[id] < n && TerminalRun(events[last[id]].name) == id)
    && (forall j :: 0 <= j < n && TerminalRun(events[j].name) != "" ==>
          TerminalRun(events[j].name) in last && j <= last[TerminalRun(events[j].name)])
  }

  lemma LastMarkersSnoc(last: map<string, int>, events: seq<Event>, i: nat)
    requires i < |events| && LastMarkers(last, events, i)
    ensures var id := TerminalRun(events[i].name);
      LastMarkers(if id != "" then last[id := i] else last, events, i + 1)
  {
  }

  method SupersedeTerminals(events: seq<Event>) returns (out: seq<Event>)
    ensures out == Terminated(events)
  {
    var last: map<string, int> := map[];
    for i := 0 to |events|
      invariant LastMarkers(last, events, i)
    {
      var id := TerminalRun(events[i].name);
      LastMarkersSnoc(last, events, i);
      if id != "" { last := last[id := i]; }
    }
    var drop := NotLast(events, last);
    LateIsOutdated(events, last);
    out := DropEvents(events, drop);
  }

  /** A marker that the map does not name as the last of its run. */
  predicate Late(last: map<string, int>, run: string, i: int) {
    run != "" && (run in last ==> last[run] != i)
  }

  function LateDrop(events: seq<Event>, last: map<string, int>): set<int> {
    set i | 0 <= i < |events| && Late(last, TerminalRun(events[i].name), i)
  }

  method NotLast(events: seq<Event>, last: map<string, int>) returns (drop: set<int>)
    ensures drop == LateDrop(events, last)
  {
    drop := {};
    for i := 0 to |events|
      invariant forall k :: k in drop <==> 0 <= k < i && Late(last, TerminalRun(events[k].name), k)
    {
      var id := TerminalRun(events[i].name);
      if id != "" && (id !in last || last[id] != i) { drop := drop + {i}; }
    }
  }

  lemma LateIsOutdated(events: seq<Event>, last: map<string, int>)
    requires LastMarkers(last, events, |events|)
    ensures LateDrop(events, last) == TerminalDrop(events)
  {
    forall i | 0 <= i < |events| ensures Late(last, TerminalRun(events[i].name), i) <==> Outdated(events, i) {
      OutdatedByLast(last, events, i);
    }
  }

  lemma OutdatedByLast(last: map<string, int>, events: seq<Event>, i: nat)
    requires LastMarkers(last, events, |events|) && i < |events|
    ensures var id := TerminalRun(events[i].name);
      Outdated(events, i) <==> id != "" && id in last && last[id] != i
    ensures TerminalRun(events[i].name) != "" ==> TerminalRun(events[i].name) in last
  {
    var id := TerminalRun(events[i].name);
    if id != "" && last[id] != i { assert i < last[id] < |events|; }
  }

  method DropEvents(events: seq<Event>, drop: set<int>) returns (out: seq<Event>)
    ensures out == Without(events, drop)
  {
    if drop == {} {
      WithoutNothing(events, drop);
      return events;
    }
    out := [];
    for i := 0 to |events|
      invariant out == Without(events[..i], drop)
    {
      assert events[..i + 1][..i] == events[..i];
      if i !in drop { out := out + [events[i]]; }
    }
    assert events[..|events|] == events;
  }

  // ----- What Without keeps ---------------------------------------------------------------------

  lemma {:induction false} WithoutNothing(events: seq<Event>, drop: set<int>)
    requires forall i :: 0 <= i < |events| ==> i !in drop
    ensures Without(events, drop) == events
  {
    if events != [] {
      WithoutNothing(events[..|events| - 1], drop);
      assert events == events[..|events| - 1] + [events[|events| - 1]];
    }
  }

  /** Two kept events were kept from two places in the same order. */
  lemma {:induction false} KeptFrom(events: seq<Event>, drop: set<int>, k: nat, l: nat) returns (i: nat, j: nat)
    requires k <= l < |Without(events, drop)|
    ensures i <= j < |events| && i !in drop && j !in drop && (k < l ==> i < j) && (k == l ==> i == j)
    ensures Without(events, drop)[k] == events[i] && Without(events, drop)[l] == events[j]
    decreases |events|
  {
    var last := |events| - 1;
    var init := Without(events[..last], drop);
    if l < |init| {
      i, j := KeptFrom(events[..last], drop, k, l);
    } else {
      i, j := last, last;
      if k < l {
        var ignored;
        i, ignored := KeptFrom(events[..last], drop, k, k);
      }
    }
  }

  lemma {:induction false} KeptAt(events: seq<Event>, drop: set<int>, i: nat)
    requires i < |events| && i !in drop
    ensures events[i] in Without(events, drop)
  {
    var last := |events| - 1;
    if i < last { KeptAt(events[..last], drop, i); }
  }

  /** Where a kept position of events ends up. */
  function Place(events: seq<Event>, drop: set<int>, i: nat): nat
    requires i <= |events|
  {
    |Without(events[..i], drop)|
  }

  lemma WithoutSnoc(events: seq<Event>, drop: set<int>, i: nat)
    requires i < |events|
    ensures Without(events[..i + 1], drop) ==
      if i in drop then Without(events[..i], drop) else Without(events[..i], drop) + [events[i]]
  {
    assert events[..i + 1][..i] == events[..i];
  }

  lemma {:induction false} Placed(events: seq<Event>, drop: set<int>, i: nat, n: nat)
    requires i < n <= |events| && i !in drop
    ensures Place(events, drop, i) < |Without(events[..n], drop)|
    ensures Without(events[..n], drop)[Place(events, drop, i)] == events[i]
  {
    WithoutSnoc(events, drop, n - 1);
    if i < n - 1 { Placed(events, drop, i, n - 1); }
  }

  /** Every position of what is left comes from one that was kept. */
  lemma {:induction false} PlacedFrom(events: seq<Event>, drop: set<int>, m: nat, n: nat) returns (i: nat)
    requires n <= |events| && m < |Without(events[..n], drop)|
    ensures i < n && i !in drop && Place(events, drop, i) == m
  {
    WithoutSnoc(events, drop, n - 1);
    if m < |Without(events[..n - 1], drop)| {
      i := PlacedFrom(events, drop, m, n - 1);
    } else {
      i := n - 1;
    }
  }

  // ----- Counting -------------------------------------------------------------------------------

  lemma BagCons(x: Event, rest: seq<Event>)
    ensures SignatureBag([x] + rest) == multiset{Signature(x)} + SignatureBag(rest)
  {
    assert ([x] + rest)[1..] == rest;
  }

  lemma ConsConcat(a: seq<Event>, b: seq<Event>)
    requires a != []
    ensures a + b == [a[0]] + (a[1..] + b) && a == [a[0]] + a[1..]
  {
  }

  lemma BagAssoc(x: multiset<string>, y: multiset<string>, z: multiset<string>)
    ensures x + (y + z) == x + y + z
  {
  }

  lemma {:induction false} BagConcat(a: seq<Event>, b: seq<Event>)
    ensures SignatureBag(a + b) == SignatureBag(a) + SignatureBag(b)
  {
    if a == [] {
      assert a + b == b;
    } else {
      BagConcat(a[1..], b);
      BagCons(a[0], a[1..] + b);
      BagCons(a[0], a[1..]);
      ConsConcat(a, b);
      BagAssoc(multiset{Signature(a[0])}, SignatureBag(a[1..]), SignatureBag(b));
    }
  }

  lemma BagSnoc(init: seq<Event>, x: Event)
    ensures SignatureBag(init + [x]) == SignatureBag(init) + multiset{Signature(x)}
  {
    BagConcat(init, [x]);
    BagCons(x, []);
    assert [x] + [] == [x];
  }

  lemma {:induction false} BagInsert(less: (Event, Event) -> bool, x: Event, xs: seq<Event>)
    ensures SignatureBag(Insert(less, x, xs)) == multiset{Signature(x)} + SignatureBag(xs)
  {
    if xs != [] && less(xs[0], x) {
      BagInsert(less, x, xs[1..]);
      assert Insert(less, x, xs)[1..] == Insert(less, x, xs[1..]);
    } else {
      assert ([x] + xs)[1..] == xs;
    }
  }

  lemma {:induction false} BagSort(less: (Event, Event) -> bool, xs: seq<Event>)
    ensures SignatureBag(StableSort(less, xs)) == SignatureBag(xs)
  {
    if xs != [] {
      BagSort(less, xs[1..]);
      BagInsert(less, xs[0], StableSort(less, xs[1..]));
    }
  }

  lemma {:induction false} UnmatchedCount(available: multiset<string>, client: seq<Event>, sig: string)
    ensures SignatureBag(Unmatched(available, client))[sig]
         == if SignatureBag(client)[sig] > available[sig] then SignatureBag(client)[sig] - available[sig] else 0
  {
    if client != [] {
      var first := Signature(client[0]);
      if first in available {
        UnmatchedCount(available - multiset{first}, client[1..], sig);
      } else {
        UnmatchedCount(available, client[1..], sig);
        var rest := Unmatched(available, client[1..]);
        assert ([client[0]] + rest)[1..] == rest;
      }
    }
  }

  /** Before superseding, each signature occurs as often as in the side that has it more often. */
  lemma CollatedCounts(server: seq<Event>, client: seq<Event>, sig: string)
    ensures var s, c := SignatureBag(server)[sig], SignatureBag(client)[sig];
      SignatureBag(Collated(server, client))[sig] == if s >= c then s else c
  {
    var extra := Unmatched(SignatureBag(server), client);
    BagSort(Before(SignatureSet(server)), server + extra);
    BagConcat(server, extra);
    UnmatchedCount(SignatureBag(server), client, sig);
  }

  lemma BeforeIsOrder(serverSigs: set<string>)
    ensures StrictWeakOrder(Before(serverSigs))
  {
  }

  /** Time never goes back in a merged transcript, and ties put what the server has first. */
  lemma MergedInOrder(server: seq<Event>, client: seq<Event>)
    ensures Sorted(Before(SignatureSet(server)), Merged(server, client))
  {
    var less, all := Before(SignatureSet(server)), Collated(server, client);
    BeforeIsOrder(SignatureSet(server));
    StableSortSorted(less, server + Unmatched(SignatureBag(server), client));
    WithoutSorted(less, all, ReplacementDrop(all));
    WithoutSorted(less, Replaced(all), TerminalDrop(Replaced(all)));
  }

  lemma WithoutSorted(less: (Event, Event) -> bool, events: seq<Event>, drop: set<int>)
    requires Sorted(less, events)
    ensures Sorted(less, Without(events, drop))
  {
    forall k, l | 0 <= k < l < |Without(events, drop)|
      ensures !less(Without(events, drop)[l], Without(events, drop)[k])
    {
      var i, j := KeptFrom(events, drop, k, l);
    }
  }

  // ----- Superseding ----------------------------------------------------------------------------

  /** The last marker of a run among events from position i on. */
  lemma LastMarker(events: seq<Event>, i: nat) returns (last: nat)
    requires i < |events| && TerminalRun(events[i].name) != ""
    ensures i <= last < |events| && TerminalRun(events[last].name) == TerminalRun(events[i].name)
    ensures !Outdated(events, last)
    decreases |events| - i
  {
    if Outdated(events, i) {
      var j :| i < j < |events| && TerminalRun(events[j].name) == TerminalRun(events[i].name);
      last := LastMarker(events, j);
    } else {
      last := i;
    }
  }

  ghost predicate HasMarker(events: seq<Event>, run: string) {
    exists e :: e in events && TerminalRun(e.name) == run
  }

  /** One marker a run. A run has a marker in the output exactly when the collated transcript has one
      that is not superseded as a fragment of an assistant text; it is then the last of those,
      and the only one. */
  lemma OneMarkerPerRun(server: seq<Event>, client: seq<Event>, run: string)
    requires run != ""
    ensures var all, out := Collated(server, client), Merged(server, client);
      && (HasMarker(out, run) <==> exists e :: e in all && TerminalRun(e.name) == run && !Superseded(all, e))
      && (forall k, l :: 0 <= k < l < |out| && TerminalRun(out[k].name) == run ==> TerminalRun(out[l].name) != run)
      && (forall k :: 0 <= k < |out| && TerminalRun(out[k].name) == run ==>
            exists i :: 0 <= i < |all| && all[i] == out[k]
                          && forall j :: i < j < |all| && TerminalRun(all[j].name) == run ==> Superseded(all, all[j]))
  {
    var all := Collated(server, client);
    var mid := Replaced(all);
    var out := Terminated(mid);
    forall e | e in all && TerminalRun(e.name) == run && !Superseded(all, e) ensures HasMarker(out, run) {
      MarkerKept(all, e);
    }
    forall e | e in out ensures e in all && !Superseded(all, e) { OutputFrom(all, e); }
    forall k, l | 0 <= k < l < |out| && TerminalRun(out[k].name) == run ensures TerminalRun(out[l].name) != run {
      OnlyMarker(mid, k, l);
    }
    forall k | 0 <= k < |out| && TerminalRun(out[k].name) == run
      ensures exists i :: 0 <= i < |all| && all[i] == out[k]
                && forall j :: i < j < |all| && TerminalRun(all[j].name) == run ==> Superseded(all, all[j])
    {
      var i := MarkerSource(all, k, run);
    }
  }

  const LONE_MARKER := Event("assistant", "a", "run:r:x", 1, "r")
  const REPLACING_TEXT := Event("assistant", "ab", "repl:r", 2, "")

  lemma LoneMarkerNames()
    ensures TerminalRun("run:r:x") == "r" && TerminalRun("repl:r") == ""
    ensures ReplacementRun("run:r:x") == "" && ReplacementRun("repl:r") == "r"
  {
    assert "run:r:x"[4..] == "r:x" && "r:x"[..1] == "r" && "repl:r"[5..] == "r";
    Text.IndexOfUnique("r:x", ':', 1);
    assert "run:r:x"[1] == 'u' && "repl:r"[1] == 'e' && "run:"[1] == 'u' && "repl:"[1] == 'e';
  }

  lemma LoneMarkerCovered()
    ensures Covers(REPLACING_TEXT, LONE_MARKER) && IsFragment(LONE_MARKER)
  {
    LoneMarkerNames();
    Text.TrimNothing("a");
    Text.TrimNothing("ab");
    assert "ab"[0..1] == "a";
    assert Text.OccursAt("ab", "a", 0);
  }

  /** So a run can lose its only marker: one that is itself a fragment of the assistant's text. */
  lemma MarkerCanVanish()
    ensures var server := [LONE_MARKER, REPLACING_TEXT];
      HasMarker(Collated(server, []), "r") && !HasMarker(Merged(server, []), "r")
  {
    var server := [LONE_MARKER, REPLACING_TEXT];
    assert Unmatched(SignatureBag(server), []) == [] && server + [] == server;
    StableSortFixpoint(Before(SignatureSet(server)), server);
    LoneMarkerNames();
    LoneMarkerCovered();
    assert Superseded(server, LONE_MARKER) by { assert REPLACING_TEXT in server; }
    OneMarkerPerRun(server, [], "r");
    assert LONE_MARKER in server;
  }

  lemma MarkerKept(all: seq<Event>, e: Event)
    requires e in all && TerminalRun(e.name) != "" && !Superseded(all, e)
    ensures HasMarker(Terminated(Replaced(all)), TerminalRun(e.name))
  {
    var mid := Replaced(all);
    var a :| 0 <= a < |all| && all[a] == e;
    KeptAt(all, ReplacementDrop(all), a);
    var i :| 0 <= i < |mid| && mid[i] == e;
    var last := LastMarker(mid, i);
    KeptAt(mid, TerminalDrop(mid), last);
  }

  lemma OnlyMarker(mid: seq<Event>, k: nat, l: nat)
    requires k < l < |Terminated(mid)| && TerminalRun(Terminated(mid)[k].name) != ""
    ensures TerminalRun(Terminated(mid)[l].name) != TerminalRun(Terminated(mid)[k].name)
  {
    var i, j := KeptFrom(mid, TerminalDrop(mid), k, l);
    assert !Outdated(mid, i);
  }

  lemma MarkerSource(all: seq<Event>, k: nat, run: string) returns (i: nat)
    requires run != "" && k < |Terminated(Replaced(all))| && TerminalRun(Terminated(Replaced(all))[k].name) == run
    ensures i < |all| && all[i] == Terminated(Replaced(all))[k] && !Superseded(all, all[i])
    ensures forall j :: i < j < |all| && TerminalRun(all[j].name) == run ==> Superseded(all, all[j])
  {
    var mid := Replaced(all);
    var m, _ := KeptFrom(mid, TerminalDrop(mid), k, k);
    i := LastSource(all, ReplacementDrop(all), m, run);
  }

  /** The last kept marker of a run: every later marker of the run was dropped. */
  lemma LastSource(all: seq<Event>, drop: set<int>, m: nat, run: string) returns (i: nat)
    requires m < |Without(all, drop)| && TerminalRun(Without(all, drop)[m].name) == run
    requires forall l :: m < l < |Without(all, drop)| ==> TerminalRun(Without(all, drop)[l].name) != run
    ensures i < |all| && i !in drop && all[i] == Without(all, drop)[m]
    ensures forall j :: i < j < |all| && TerminalRun(all[j].name) == run ==> j in drop
  {
    assert all[..|all|] == all;
    i := PlacedFrom(all, drop, m, |all|);
    Placed(all, drop, i, |all|);
    forall j | i < j < |all| && j !in drop ensures TerminalRun(all[j].name) != run {
      Placed(all, drop, i, j);
      Placed(all, drop, j, |all|);
    }
  }

  /** Two passes of dropping are one. */
  lemma {:induction false} WithoutTwice(events: seq<Event>, first: set<int>, second: set<int>, both: set<int>, n: nat)
    requires n <= |events|
    requires forall i :: 0 <= i < |events| ==> (i in both <==> i in first || Place(events, first, i) in second)
    ensures Without(Without(events[..n], first), second) == Without(events[..n], both)
  {
    if n > 0 {
      WithoutTwice(events, first, second, both, n - 1);
      WithoutTwiceStep(events, first, second, both, n - 1);
    }
  }

  lemma WithoutTwiceStep(events: seq<Event>, first: set<int>, second: set<int>, both: set<int>, m: nat)
    requires m < |events| && (m in both <==> m in first || Place(events, first, m) in second)
    requires Without(Without(events[..m], first), second) == Without(events[..m], both)
    ensures Without(Without(events[..m + 1], first), second) == Without(events[..m + 1], both)
  {
    WithoutSnoc(events, first, m);
    WithoutSnoc(events, both, m);
    var mid := Without(events[..m], first);
    if m !in first { assert (mid + [events[m]])[..|mid|] == mid; }
  }

  /** A marker with a later marker of its run that is not superseded. */
  predicate Overtaken(all: seq<Event>, i: nat)
    requires i < |all|
  {
    TerminalRun(all[i].name) != "" &&
    exists j :: i < j < |all| && TerminalRun(all[j].name) == TerminalRun(all[i].name) && !Superseded(all, all[j])
  }

  /** The positions that do not survive the two passes. */
  function Dropped(all: seq<Event>): set<int> {
    set i | 0 <= i < |all| && (Superseded(all, all[i]) || Overtaken(all, i))
  }

  lemma OutdatedIsOvertaken(all: seq<Event>, i: nat)
    requires i < |all| && !Superseded(all, all[i])
    ensures Place(all, ReplacementDrop(all), i) in TerminalDrop(Replaced(all)) <==> Overtaken(all, i)
  {
    var drop, mid := ReplacementDrop(all), Replaced(all);
    assert all[..|all|] == all;
    Placed(all, drop, i, |all|);
    var m := Place(all, drop, i);
    if Overtaken(all, i) {
      var j :| i < j < |all| && TerminalRun(all[j].name) == TerminalRun(all[i].name) && !Superseded(all, all[j]);
      Placed(all, drop, j, |all|);
      Placed(all, drop, i, j);
      assert m < Place(all, drop, j);
    }
    if Outdated(mid, m) {
      var l :| m < l < |mid| && TerminalRun(mid[l].name) == TerminalRun(mid[m].name);
      var j := PlacedFrom(all, drop, l, |all|);
      Placed(all, drop, j, |all|);
      if j < i { Placed(all, drop, j, i); }
    }
  }

  /** The merged transcript is the collated one without the dropped positions. */
  lemma DropsExactly(all: seq<Event>)
    ensures Terminated(Replaced(all)) == Without(all, Dropped(all))
  {
    forall i | 0 <= i < |all|
      ensures i in Dropped(all) <==>
        i in ReplacementDrop(all) || Place(all, ReplacementDrop(all), i) in TerminalDrop(Replaced(all))
    {
      if !Superseded(all, all[i]) { OutdatedIsOvertaken(all, i); }
    }
    WithoutTwice(all, ReplacementDrop(all), TerminalDrop(Replaced(all)), Dropped(all), |all|);
    assert all[..|all|] == all;
  }

  /** The last marker of a run that is not superseded is not dropped. */
  lemma LastStanding(all: seq<Event>, i: nat) returns (last: nat)
    requires i < |all| && TerminalRun(all[i].name) != "" && !Superseded(all, all[i])
    ensures i <= last < |all| && TerminalRun(all[last].name) == TerminalRun(all[i].name) && last !in Dropped(all)
    decreases |all| - i
  {
    if Overtaken(all, i) {
      var j :| i < j < |all| && TerminalRun(all[j].name) == TerminalRun(all[i].name) && !Superseded(all, all[j]);
      last := LastStanding(all, j);
    } else {
      last := i;
    }
  }

  /** Nothing is lost silently, copy by copy: the output is the collated transcript without certain
      positions, and at each of these stands a fragment covered by a replacement that the output
      holds, or a marker of a run of which a later position is kept. */
  lemma EveryDropAccounted(server: seq<Event>, client: seq<Event>, i: nat)
    ensures var all, out := Collated(server, client), Merged(server, client);
      && out == Without(all, Dropped(all))
      && (i in Dropped(all) ==>
            && i < |all|
            && (|| (IsFragment(all[i]) && exists r :: r in out && Covers(r, all[i]))
                || (TerminalRun(all[i].name) != "" &&
                    exists j :: i < j < |all| && j !in Dropped(all) && TerminalRun(all[j].name) == TerminalRun(all[i].name))))
  {
    var all := Collated(server, client);
    DropsExactly(all);
    if i in Dropped(all) {
      if Superseded(all, all[i]) {
        var r :| r in all && Covers(r, all[i]);
        ReplacementSurvives(all, r);
      } else {
        var j :| i < j < |all| && TerminalRun(all[j].name) == TerminalRun(all[i].name) && !Superseded(all, all[j]);
        var last := LastStanding(all, j);
      }
    }
  }

  lemma OutputFrom(all: seq<Event>, e: Event)
    ensures e in Terminated(Replaced(all)) ==> e in Replaced(all)
    ensures e in Replaced(all) ==> e in all && !Superseded(all, e)
  {
    var mid := Replaced(all);
    var out := Terminated(mid);
    if e in out {
      var k :| 0 <= k < |out| && out[k] == e;
      var i, _ := KeptFrom(mid, TerminalDrop(mid), k, k);
    }
    if e in mid {
      var k :| 0 <= k < |mid| && mid[k] == e;
      var i, _ := KeptFrom(all, ReplacementDrop(all), k, k);
    }
  }

  lemma MidOutdated(all: seq<Event>, e: Event)
    requires e in all && !Superseded(all, e) && e !in Terminated(Replaced(all))
    ensures TerminalRun(e.name) != ""
  {
    var a :| 0 <= a < |all| && all[a] == e;
    KeptAt(all, ReplacementDrop(all), a);
    var mid := Replaced(all);
    var i :| 0 <= i < |mid| && mid[i] == e;
    if i !in TerminalDrop(mid) { KeptAt(mid, TerminalDrop(mid), i); }
  }

  lemma ReplacementSurvives(all: seq<Event>, r: Event)
    requires r in all && IsReplacement(r)
    ensures r in Terminated(Replaced(all))
  {
    assert r.name[1] == 'e' && "run:"[1] == 'u';
    assert TerminalRun(r.name) == "";
    if r !in Terminated(Replaced(all)) { MidOutdated(all, r); }
  }

  // ----- Merging back ---------------------------------------------------------------------------

  lemma {:induction false} AllMatched(available: multiset<string>, client: seq<Event>)
    requires SignatureBag(client) <= available
    ensures Unmatched(available, client) == []
  {
    if client != [] {
      assert Signature(client[0]) in SignatureBag(client);
      AllMatched(available - multiset{Signature(client[0])}, client[1..]);
    }
  }

  lemma SettledDrops(all: seq<Event>)
    ensures var out := Terminated(Replaced(all)); ReplacementDrop(out) == {} && TerminalDrop(out) == {}
  {
    var mid := Replaced(all);
    var out := Terminated(mid);
    forall k | 0 <= k < |out| ensures !Superseded(out, out[k]) && !Outdated(out, k) {
      OutputFrom(all, out[k]);
      forall r | r in out ensures r in all { OutputFrom(all, r); }
      forall l | k < l < |out| && TerminalRun(out[k].name) != "" ensures TerminalRun(out[l].name) != TerminalRun(out[k].name) {
        OnlyMarker(mid, k, l);
      }
    }
  }

  /** Merging any part of a merged transcript back into it returns it unchanged. */
  lemma MergeBack(server: seq<Event>, client: seq<Event>, part: seq<Event>)
    requires SignatureBag(part) <= SignatureBag(Merged(server, client))
    ensures Merged(Merged(server, client), part) == Merged(server, client)
  {
    var out := Merged(server, client);
    AllMatched(SignatureBag(out), part);
    assert out + [] == out;
    MergedInOrder(server, client);
    forall i, j | 0 <= i < j < |out| ensures !Before(SignatureSet(out))(out[j], out[i]) {
      assert !Before(SignatureSet(server))(out[j], out[i]);
      assert Signature(out[i]) in SignatureSet(out);
    }
    StableSortFixpoint(Before(SignatureSet(out)), out);
    SettledDrops(Collated(server, client));
    WithoutNothing(out, ReplacementDrop(out));
    WithoutNothing(out, TerminalDrop(out));
  }
}
