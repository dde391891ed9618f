/** What the parts of a transcript merge mean: which client events are new, what the names of events
    say, what covers what, and in which order the merged transcript goes. */
module Transcripts {
  import Text
  import opened Sequences
  import opened Sorting
  import opened Conversations

  // ----- Signatures and matching ----------------------------------------------------------------

  lemma FirstNul(a: string, b: string)
    requires '\0' !in a
    ensures Text.IndexOf(a + "\0" + b, '\0') == |a| < |a + "\0" + b|
    ensures (a + "\0" + b)[..|a|] == a && (a + "\0" + b)[|a| + 1..] == b
  {
    Text.IndexOfUnique(a + "\0" + b, '\0', |a|);
  }

  lemma SplitAtNul(a: string, b: string, a': string, b': string)
    requires '\0' !in a && '\0' !in a'
    ensures a + "\0" + b == a' + "\0" + b' <==> a == a' && b == b'
  {
    FirstNul(a, b);
    FirstNul(a', b');
  }

  lemma SignatureParts(e: Event)
    ensures Signature(e) == e.kind + "\0" + (e.text + "\0" + e.name)
  {
  }

  /** A signature is the kind, the text and the name, and nothing else of an event, when kinds and
      texts have no NUL character. */
  lemma SignatureExactly(a: Event, b: Event)
    requires '\0' !in a.kind && '\0' !in b.kind && '\0' !in a.text && '\0' !in b.text
    ensures Signature(a) == Signature(b) <==> a.kind == b.kind && a.text == b.text && a.name == b.name
  {
    SignatureParts(a);
    SignatureParts(b);
    SplitAtNul(a.kind, a.text + "\0" + a.name, b.kind, b.text + "\0" + b.name);
    SplitAtNul(a.text, a.name, b.text, b.name);
  }

  function Positions(events: seq<Event>, sig: string): set<int> {
    set i | 0 <= i < |events| && Signature(events[i]) == sig
  }

  lemma PositionsSnoc(init: seq<Event>, x: Event, sig: string)
    ensures |Positions(init + [x], sig)| == |Positions(init, sig)| + if Signature(x) == sig then 1 else 0
  {
    assert Positions(init + [x], sig) == Positions(init, sig) + if Signature(x) == sig then {|init|} else {};
  }

  /** The bag counts the positions of each signature. */
  lemma {:induction false} BagCounts(events: seq<Event>, sig: string)
    ensures SignatureBag(events)[sig] == |Positions(events, sig)|
  {
    if events != [] {
      var init, last := events[..|events| - 1], events[|events| - 1];
      BagCounts(init, sig);
      BagSnoc(init, last);
      PositionsSnoc(init, last, sig);
      assert events == init + [last];
    }
  }

  /** With a NUL character two different events can have one signature, and the client's one is lost. */
  lemma NulCollides(time: int, run: string)
    ensures var a, b := Event("user", "x", "y\0z", time, run), Event("user", "x\0y", "z", time, run);
      a != b && Merged([a], [b]) == [a]
  {
    var a, b := Event("user", "x", "y\0z", time, run), Event("user", "x\0y", "z", time, run);
    assert Signature(a) == Signature(b) == "user\0x\0y\0z";
    assert SignatureBag([a]) == multiset{Signature(a)} by { assert [a][1..] == []; }
    assert Unmatched(SignatureBag([a]), [b]) == [] by { assert [b][1..] == []; }
    var less := Before(SignatureSet([a]));
    assert [a] + [] == [a];
    StableSortFixpoint(less, [a]);
    assert !IsFragment(a);
    WithoutNothing([a], ReplacementDrop([a]));
    WithoutNothing([a], TerminalDrop([a]));
  }

  /** The client positions that some server event accounts for: of each signature the first ones, as
      many as the server has. */
  function Matched(available: multiset<string>, client: seq<Event>): set<int> {
    set i | 0 <= i < |client| && SignatureBag(client[..i])[Signature(client[i])] < available[Signature(client[i])]
  }

  lemma {:induction false} UnmatchedSnoc(available: multiset<string>, init: seq<Event>, x: Event)
    ensures Unmatched(available, init + [x]) ==
      Unmatched(available, init) + if SignatureBag(init)[Signature(x)] < available[Signature(x)] then [] else [x]
  {
    if init == [] {
      assert [] + [x] == [x] && [x][1..] == [];
    } else {
      var sig := Signature(init[0]);
      assert (init + [x])[1..] == init[1..] + [x];
      UnmatchedSnoc(if sig in available then available - multiset{sig} else available, init[1..], x);
      if sig !in available { UnmatchedAdd(init[0], Unmatched(available, init[1..]), Unmatched(available, init[1..] + [x]), x); }
    }
  }

  lemma UnmatchedAdd(first: Event, rest: seq<Event>, longer: seq<Event>, x: Event)
    requires longer == rest || longer == rest + [x]
    ensures longer == rest + [x] ==> [first] + longer == [first] + rest + [x]
    ensures [first] + rest + [] == [first] + rest
  {
  }

  /** The client events that are added are the others, every one as it is and in its order. */
  lemma {:induction false} UnmatchedExactly(available: multiset<string>, client: seq<Event>)
    ensures Unmatched(available, client) == Without(client, Matched(available, client))
  {
    if client != [] {
      var last := |client| - 1;
      var init := client[..last];
      UnmatchedExactly(available, init);
      UnmatchedSnoc(available, init, client[last]);
      assert client == init + [client[last]];
      MatchedLast(available, client);
    }
  }

  lemma MatchedLast(available: multiset<string>, client: seq<Event>)
    requires client != []
    ensures var last := |client| - 1; var init := client[..last];
      Without(client, Matched(available, client)) == Without(init, Matched(available, init)) +
        if SignatureBag(init)[Signature(client[last])] < available[Signature(client[last])] then [] else [client[last]]
  {
    var last := |client| - 1;
    MatchedInit(available, client);
    WithoutSame(client[..last], Matched(available, client), Matched(available, client[..last]));
    assert last in Matched(available, client) <==>
      SignatureBag(client[..last])[Signature(client[last])] < available[Signature(client[last])];
  }

  lemma MatchedInit(available: multiset<string>, client: seq<Event>)
    requires client != []
    ensures forall i :: 0 <= i < |client| - 1 ==>
      (i in Matched(available, client) <==> i in Matched(available, client[..|client| - 1]))
  {
    var init := client[..|client| - 1];
    forall i | 0 <= i < |init| ensures i in Matched(available, client) <==> i in Matched(available, init) {
      assert init[..i] == client[..i] && init[i] == client[i];
    }
  }

  lemma {:induction false} WithoutSame(events: seq<Event>, a: set<int>, b: set<int>)
    requires forall i :: 0 <= i < |events| ==> (i in a <==> i in b)
    ensures Without(events, a) == Without(events, b)
  {
    if events != [] { WithoutSame(events[..|events| - 1], a, b); }
  }

  /** An event of the client is in the collated transcript when there are as many of its signature before
      it as the server has. */
  lemma NewEventsCollated(server: seq<Event>, client: seq<Event>, i: nat)
    requires i < |client|
    requires SignatureBag(client[..i])[Signature(client[i])] >= SignatureBag(server)[Signature(client[i])]
    ensures client[i] in Collated(server, client)
  {
    var bag := SignatureBag(server);
    UnmatchedExactly(bag, client);
    KeptAt(client, Matched(bag, client), i);
    assert client[i] in multiset(server + Unmatched(bag, client));
    assert client[i] in multiset(Collated(server, client));
  }

  // ----- Names ----------------------------------------------------------------------------------

  /** "repl:<run>" */
  lemma ReplacementRunMeans(name: string, run: string)
    ensures run != "" ==> (ReplacementRun(name) == run <==> name == "repl:" + run)
  {
    if Text.HasPrefix(name, "repl:") { assert name == "repl:" + name[5..]; }
  }

  ghost predicate MarkerName(name: string, run: string, rest: string) {
    run != "" && ':' !in run && name == "run:" + run + ":" + rest
  }

  /** "run:<run>:<rest>", the run up to the second colon. */
  lemma TerminalRunMeans(name: string, run: string)
    ensures run != "" ==> (TerminalRun(name) == run <==> exists rest :: MarkerName(name, run, rest))
  {
    if run != "" && TerminalRun(name) == run {
      var tail := name[4..];
      var i := Text.IndexOf(tail, ':');
      assert name == "run:" + tail && tail == run + ":" + tail[i + 1..];
      assert name == "run:" + run + ":" + tail[i + 1..];
      assert MarkerName(name, run, tail[i + 1..]);
    }
    if rest :| MarkerName(name, run, rest) { MarkerRun(name, run, rest); }
  }

  lemma MarkerRun(name: string, run: string, rest: string)
    requires MarkerName(name, run, rest)
    ensures TerminalRun(name) == run
  {
    var tail := run + ":" + rest;
    assert name == "run:" + tail && name[4..] == tail;
    assert tail[..|run|] == run && tail[|run|] == ':';
    Text.IndexOfUnique(tail, ':', |run|);
  }

  ghost predicate Longer(long: string, short: string, before: string, after: string) {
    (before != "" || after != "") && Text.Around(long, before, short, after)
  }

  /** A replacement covers a fragment of its run whose trimmed text is a proper part of its own. */
  lemma CoversExactly(r: Event, e: Event)
    ensures Covers(r, e) && IsFragment(e) <==>
      && r.kind == "assistant" && r.name == "repl:" + e.runId && e.runId != ""
      && e.kind == "assistant" && (!Text.HasPrefix(e.name, "repl:") || e.name == "repl:")
      && exists before, after :: Longer(Text.TrimSpace(r.text), Text.TrimSpace(e.text), before, after)
  {
    var long, short := Text.TrimSpace(r.text), Text.TrimSpace(e.text);
    ReplacementRunMeans(r.name, e.runId);
    Text.ContainsExactly(long, short);
    if before, after :| Longer(long, short, before, after) { assert |long| > |short|; }
    if Text.Contains(long, short) && long != short {
      var before, after :| Text.Around(long, before, short, after);
      assert before == "" && after == "" ==> long == short;
      assert Longer(long, short, before, after);
    }
  }

  /** Both passes are complete: the merged transcript holds no fragment that an event of it replaces, and no
      marker before another of its run. */
  lemma NothingLeftToDrop(server: seq<Event>, client: seq<Event>, i: nat, j: nat)
    requires i < |Merged(server, client)| && j < |Merged(server, client)|
    ensures var out := Merged(server, client);
      && !(IsFragment(out[i]) && Covers(out[j], out[i]))
      && (i < j && TerminalRun(out[i].name) != "" ==> TerminalRun(out[j].name) != TerminalRun(out[i].name))
  {
    var all := Collated(server, client);
    var out := Merged(server, client);
    OutputFrom(all, out[i]);
    OutputFrom(all, out[j]);
    if i < j && TerminalRun(out[i].name) != "" { OnlyMarker(Replaced(all), i, j); }
  }

  // ----- Order ----------------------------------------------------------------------------------

  /** The server has an event of this signature. */
  ghost predicate OnServer(server: seq<Event>, e: Event) {
    exists s :: s in server && Signature(s) == Signature(e)
  }

  /** Time never goes back, and of two events of one time one that the server has is not after one that
      only the client has. */
  lemma InTimeOrder(server: seq<Event>, client: seq<Event>, i: nat, j: nat)
    requires i < j < |Merged(server, client)|
    ensures var a, b := Merged(server, client)[i], Merged(server, client)[j];
      a.createdAt <= b.createdAt && (a.createdAt == b.createdAt && OnServer(server, b) ==> OnServer(server, a))
  {
    MergedInOrder(server, client);
    var out := Merged(server, client);
    assert !Before(SignatureSet(server))(out[j], out[i]);
  }

  /** The events of one time and one side, in their order. */
  ghost function AtTime(server: seq<Event>, events: seq<Event>, time: int, known: bool): seq<Event> {
    if events == [] then []
    else
      var rest := AtTime(server, events[1..], time, known);
      if events[0].createdAt == time && OnServer(server, events[0]) == known then [events[0]] + rest else rest
  }

  lemma {:induction false} TiesAtTime(server: seq<Event>, events: seq<Event>, pivot: Event)
    ensures Ties(Before(SignatureSet(server)), pivot, events) == AtTime(server, events, pivot.createdAt, OnServer(server, pivot))
  {
    if events != [] { TiesAtTime(server, events[1..], pivot); }
  }

  /** Sorting keeps the order of those: the server's as the server has them, then the client's as the
      client has them. */
  lemma TiesKeepOrder(server: seq<Event>, client: seq<Event>, pivot: Event)
    ensures AtTime(server, Collated(server, client), pivot.createdAt, OnServer(server, pivot)) ==
      AtTime(server, server + Unmatched(SignatureBag(server), client), pivot.createdAt, OnServer(server, pivot))
  {
    var less, all := Before(SignatureSet(server)), server + Unmatched(SignatureBag(server), client);
    BeforeIsOrder(SignatureSet(server));
    StableSortStable(less, all, pivot);
    TiesAtTime(server, all, pivot);
    TiesAtTime(server, Collated(server, client), pivot);
  }
}
