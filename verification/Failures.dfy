/** The login limiter (auth/sessions.go): per address, a list of failure times that is pruned inside its
    own backing array, against the full history of failures. */
module Failures {

  // ----- What it stands for ---------------------------------------------------------------------

  function Kept(times: seq<int>, t: int, cutoff: int): seq<int> {
    if t > cutoff then times + [t] else times
  }

  /** The times strictly later than the cutoff, in their order. */
  function After(times: seq<int>, cutoff: int): (r: seq<int>)
    ensures |r| <= |times|
  {
    if times == [] then [] else Kept(After(times[..|times| - 1], cutoff), times[|times| - 1], cutoff)
  }

  lemma {:induction false} AfterMember(times: seq<int>, cutoff: int, t: int)
    ensures t in After(times, cutoff) <==> t in times && t > cutoff
  {
    if times != [] {
      var init := times[..|times| - 1];
      AfterMember(init, cutoff, t);
      assert times == init + [times[|times| - 1]];
    }
  }

  /** The positions of the times strictly later than the cutoff. */
  function LaterThan(times: seq<int>, cutoff: int): set<int> {
    set i | 0 <= i < |times| && times[i] > cutoff
  }

  /** As many as those, and each time as often as it was there. */
  lemma {:induction false} AfterCounts(times: seq<int>, cutoff: int, t: int)
    ensures |After(times, cutoff)| == |LaterThan(times, cutoff)|
    ensures multiset(After(times, cutoff))[t] == if t > cutoff then multiset(times)[t] else 0
  {
    if times != [] {
      var init, last := times[..|times| - 1], times[|times| - 1];
      AfterCounts(init, cutoff, t);
      assert times == init + [last];
      var n := |init|;
      assert LaterThan(times, cutoff) == LaterThan(init, cutoff) + if last > cutoff then {n} else {};
    }
  }

  lemma AfterSnoc(times: seq<int>, t: int, cutoff: int)
    ensures After(times + [t], cutoff) == Kept(After(times, cutoff), t, cutoff)
  {
    assert (times + [t])[..|times|] == times;
  }

  /** Pruning at an earlier cutoff does not show at a later one. */
  lemma {:induction false} LaterCutoff(times: seq<int>, c: int, d: int)
    requires c <= d
    ensures After(After(times, c), d) == After(times, d)
  {
    if times != [] {
      var init, t := times[..|times| - 1], times[|times| - 1];
      LaterCutoff(init, c, d);
      if t > c { AfterSnoc(After(init, c), t, d); }
    }
  }

  /** So a list that agrees with the history after one cutoff agrees with it after every later one. */
  lemma StillAgrees(recorded: seq<int>, history: seq<int>, c: int, d: int)
    requires c <= d && After(recorded, c) == After(history, c)
    ensures After(recorded, d) == After(history, d)
  {
    LaterCutoff(recorded, c, d);
    LaterCutoff(history, c, d);
  }

  lemma {:induction false} LaterFewer(times: seq<int>, c: int, d: int)
    requires c <= d
    ensures |After(times, d)| <= |After(times, c)|
  {
    LaterCutoff(times, c, d);
  }

  // ----- Lists and histories of all addresses ---------------------------------------------------

  type Log = map<string, seq<int>>

  function Times(log: Log, ip: string): seq<int> {
    if ip in log then log[ip] else []
  }

  /** The pruned lists stand for the full histories: for every address they agree after the cutoff. */
  ghost predicate Agree(failures: Log, history: Log, cutoff: int) {
    forall ip :: AgreeOn(failures, history, cutoff, ip)
  }

  ghost predicate AgreeOn(failures: Log, history: Log, cutoff: int, ip: string) {
    After(Times(failures, ip), cutoff) == After(Times(history, ip), cutoff)
  }

  lemma AgreeLater(failures: Log, history: Log, c: int, d: int)
    requires c <= d && Agree(failures, history, c)
    ensures Agree(failures, history, d)
  {
    forall ip ensures AgreeOn(failures, history, d, ip) {
      assert AgreeOn(failures, history, c, ip);
      StillAgrees(Times(failures, ip), Times(history, ip), c, d);
    }
  }

  lemma AgreePruned(failures: Log, history: Log, cutoff: int, ip: string)
    requires Agree(failures, history, cutoff)
    ensures Agree(failures[ip := After(Times(failures, ip), cutoff)], history, cutoff)
  {
    var times := Times(failures, ip);
    var pruned := failures[ip := After(times, cutoff)];
    assert AgreeOn(failures, history, cutoff, ip);
    LaterCutoff(times, cutoff, cutoff);
    forall other ensures AgreeOn(pruned, history, cutoff, other) {
      assert AgreeOn(failures, history, cutoff, other);
    }
  }

  lemma AgreeFailed(failures: Log, history: Log, cutoff: int, ip: string, t: int)
    requires Agree(failures, history, cutoff)
    ensures Agree(failures[ip := Times(failures, ip) + [t]], history[ip := Times(history, ip) + [t]], cutoff)
  {
    assert AgreeOn(failures, history, cutoff, ip);
    AfterSnoc(Times(failures, ip), t, cutoff);
    AfterSnoc(Times(history, ip), t, cutoff);
    var recorded, all := failures[ip := Times(failures, ip) + [t]], history[ip := Times(history, ip) + [t]];
    forall other ensures AgreeOn(recorded, all, cutoff, other) {
      assert AgreeOn(failures, history, cutoff, other);
    }
  }

  lemma AgreeForgotten(failures: Log, history: Log, cutoff: int, ip: string)
    requires Agree(failures, history, cutoff)
    ensures Agree(failures - {ip}, history - {ip}, cutoff)
  {
    var recorded, all := failures - {ip}, history - {ip};
    forall other ensures AgreeOn(recorded, all, cutoff, other) {
      assert AgreeOn(failures, history, cutoff, other);
    }
  }

  // ----- The limiter ----------------------------------------------------------------------------

  /** The filtering loop of Limited: it reads a slice while it appends to the empty prefix of the same
      backing array. */
  method KeepAfter(data: array<int>, cutoff: int) returns (kept: nat)
    modifies data
    ensures kept <= data.Length && data[..kept] == After(old(data[..]), cutoff)
    ensures data[kept..] == old(data[kept..])
  {
    ghost var times := data[..];
    kept := 0;
    for i := 0 to data.Length
      invariant kept <= i && data[..kept] == After(times[..i], cutoff)
      invariant forall k :: kept <= k < data.Length ==> data[k] == times[k]
    {
      assert times[..i + 1] == times[..i] + [times[i]];
      AfterSnoc(times[..i], times[i], cutoff);
      if data[i] > cutoff {
        ghost var before := data[..kept];
        data[kept] := data[i];
        assert data[..kept + 1] == before + [times[i]];
        kept := kept + 1;
      }
    }
    assert times[..data.Length] == times;
  }

  class FailureLog {
    const window: int
    const maxFailures: int
    var failures: Log
    ghost var history: Log   // every failure of an address since it last opened a session
    ghost var clock: int

    ghost predicate Valid()
      reads this
    {
      Agree(failures, history, clock - window)
    }

    /** The failures of an address that count at an instant: those strictly inside the window. */
    ghost function Recent(ip: string, now: int): seq<int>
      reads this
    {
      After(Times(history, ip), now - window)
    }

    constructor (window: int, maxFailures: int, now: int)
      ensures Valid() && history == map[] && clock == now
      ensures this.window == window && this.maxFailures == maxFailures
    {
      this.window, this.maxFailures := window, maxFailures;
      failures, history, clock := map[], map[], now;
    }

    /** An address is limited exactly when enough of its full history counts. */
    method Limited(ip: string, now: int) returns (limited: bool)
      requires Valid() && clock <= now
      modifies this`failures, this`clock
      ensures Valid() && clock == now
      ensures limited <==> |Recent(ip, now)| >= maxFailures
      ensures limited <==> |LaterThan(Times(history, ip), now - window)| >= maxFailures
    {
      AfterCounts(Times(history, ip), now - window, now);
      var cutoff, times := now - window, Times(failures, ip);
      var data := new int[|times|](i requires 0 <= i < |times| => times[i]);
      assert data[..] == times;
      var kept := KeepAfter(data, cutoff);
      AgreeLater(failures, history, clock - window, cutoff);
      AgreePruned(failures, history, cutoff, ip);
      assert AgreeOn(failures, history, cutoff, ip);
      failures, clock := failures[ip := data[..kept]], now;
      return kept >= maxFailures;
    }

    method Fail(ip: string, now: int)
      requires Valid() && clock <= now
      modifies this`failures, this`history, this`clock
      ensures Valid() && clock == now
      ensures history == old(history)[ip := Times(old(history), ip) + [now]]
    {
      AgreeLater(failures, history, clock - window, now - window);
      AgreeFailed(failures, history, now - window, ip, now);
      failures := failures[ip := Times(failures, ip) + [now]];
      history, clock := history[ip := Times(history, ip) + [now]], now;
    }

    /** What opening a session does to the list of its address. */
    method Forget(ip: string)
      requires Valid()
      modifies this`failures, this`history
      ensures Valid() && history == old(history) - {ip}
    {
      AgreeForgotten(failures, history, clock - window, ip);
      failures, history := failures - {ip}, history - {ip};
    }
  }
}
