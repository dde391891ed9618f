/** The session table (auth/sessions.go): capped per account, and emptied only by expiry, eviction or
    revocation. */
module Sessions {
  import opened Wrappers
  import opened Capabilities
  import opened Failures
  import opened Sequences
  import opened Sorting
  import Text

  datatype Session = Session(
    accountId: string, identityId: string, csrf: string, created: int, expires: int, remoteIp: string, userAgent: string)

  type Table = map<string, Session>

  datatype LoginFailure = RateLimited | InvalidCredential | NotSaved | NotLoaded

  datatype Options = Options(sessionTtl: int, failureWindow: int, maxFailures: int, maxSessions: int)

  const MINUTE := 60_000_000_000

  function WithDefaults(o: Options): Options {
    Options(if o.sessionTtl <= 0 then 720 * MINUTE else o.sessionTtl,
            if o.failureWindow <= 0 then 10 * MINUTE else o.failureWindow,
            if o.maxFailures <= 0 then 8 else o.maxFailures,
            if o.maxSessions <= 0 then 32 else o.maxSessions)
  }

  /** A positive option stays; the others become twelve hours, ten minutes, eight failures and
      thirty-two sessions. */
  lemma WithDefaultsExactly(o: Options)
    ensures var d := WithDefaults(o);
      && d.sessionTtl == (if o.sessionTtl > 0 then o.sessionTtl else 12 * 60 * 60 * 1_000_000_000)
      && d.failureWindow == (if o.failureWindow > 0 then o.failureWindow else 10 * 60 * 1_000_000_000)
      && d.maxFailures == (if o.maxFailures > 0 then o.maxFailures else 8)
      && d.maxSessions == (if o.maxSessions > 0 then o.maxSessions else 32)
    ensures WithDefaults(WithDefaults(o)) == WithDefaults(o)
  {
  }

  /** The sessions of one account. */
  function Owned(table: Table, accountId: string): set<string> {
    set id | id in table && table[id].accountId == accountId
  }

  ghost predicate WithinCap(table: Table, max: int) {
    forall a :: |Owned(table, a)| <= max
  }

  /** The table without the sessions that have expired strictly before now. */
  function Live(table: Table, now: int): Table {
    map id | id in table && now <= table[id].expires :: table[id]
  }

  // ----- Eviction -------------------------------------------------------------------------------

  /** rest is table with just so many sessions of the account taken out that one more fits, and none
      taken out that is newer than one of the account's that stays. */
  ghost predicate Trimmed(table: Table, accountId: string, max: int, rest: Table) {
    && rest.Keys <= table.Keys && (forall id :: id in rest ==> rest[id] == table[id])
    && (forall id :: id in table && id !in rest ==> table[id].accountId == accountId)
    && |Owned(rest, accountId)| == (if |Owned(table, accountId)| < max then |Owned(table, accountId)| else max - 1)
    && (forall gone, kept :: gone in table && gone !in rest && kept in Owned(rest, accountId) ==>
          table[gone].created <= table[kept].created)
  }

  /** Between creation times that differ there is no choice: eviction is determined. */
  lemma TrimmedUnique(table: Table, accountId: string, max: int, r: Table, s: Table)
    requires Trimmed(table, accountId, max, r) && Trimmed(table, accountId, max, s)
    requires forall i, j :: i in Owned(table, accountId) && j in Owned(table, accountId) && i != j ==>
      table[i].created != table[j].created
    ensures r == s
  {
    var a, b := Owned(r, accountId), Owned(s, accountId);
    if a != b {
      var i := OnlyIn(a, b);
      var j := OnlyIn(b, a);
      assert false;
    }
    forall id ensures id in r <==> id in s {
      if id in table && table[id].accountId == accountId { assert id in a <==> id in b; }
    }
  }

  /** Of two different sets of one size, each has something that the other lacks. */
  lemma OnlyIn<T>(a: set<T>, b: set<T>) returns (x: T)
    requires a != b && |a| == |b|
    ensures x in a && x !in b
  {
    if a <= b {
      SubsetSmaller(a, b);
      assert false;
    }
    x :| x in a && x !in b;
  }

  /** With one more session put in, the account is within the cap, however many it had. */
  lemma OneMoreFits(table: Table, accountId: string, max: int, rest: Table, id: string, session: Session)
    requires max > 0 && Trimmed(table, accountId, max, rest) && session.accountId == accountId
    ensures |Owned(rest[id := session], accountId)| <= max
    ensures forall b :: b != accountId ==> Owned(rest[id := session], b) <= Owned(table, b)
  {
    OwnedPut(rest, id, session);
    OneMore(Owned(rest, accountId), id);
    forall b | b != accountId ensures Owned(rest[id := session], b) <= Owned(table, b) {
      OwnedOthers(table, accountId, max, rest, b);
    }
  }

  lemma CapKept(before: Table, now: int, max: int, rest: Table, id: string, session: Session)
    requires WithinCap(before, max) && max > 0 && Trimmed(Live(before, now), session.accountId, max, rest)
    ensures WithinCap(rest[id := session], max)
  {
    var live, after := Live(before, now), rest[id := session];
    OneMoreFits(live, session.accountId, max, rest, id, session);
    forall a ensures |Owned(after, a)| <= max {
      if a != session.accountId {
        assert Owned(after, a) <= Owned(live, a) <= Owned(before, a);
        SubsetSmaller(Owned(after, a), Owned(before, a));
      }
    }
  }

  lemma OwnedPut(rest: Table, id: string, session: Session)
    ensures Owned(rest[id := session], session.accountId) == Owned(rest, session.accountId) + {id}
    ensures forall b :: b != session.accountId ==> Owned(rest[id := session], b) <= Owned(rest, b)
  {
  }

  lemma OwnedOthers(table: Table, accountId: string, max: int, rest: Table, b: string)
    requires Trimmed(table, accountId, max, rest) && b != accountId
    ensures Owned(rest, b) == Owned(table, b)
  {
  }

  lemma FewerWithinCap(table: Table, rest: Table, max: int)
    requires WithinCap(table, max) && forall a :: Owned(rest, a) <= Owned(table, a)
    ensures WithinCap(rest, max)
  {
    forall a ensures |Owned(rest, a)| <= max { SubsetSmaller(Owned(rest, a), Owned(table, a)); }
  }

  datatype Candidate = Candidate(id: string, created: int)

  predicate Older(a: Candidate, b: Candidate) { a.created < b.created }

  /** The list holds the sessions of the account, each once. */
  ghost predicate Lists(owned: seq<Candidate>, table: Table, ids: set<string>) {
    && ids <= table.Keys && Distinct(owned)
    && forall c :: c in owned <==> c.id in ids && c.created == table[c.id].created
  }

  lemma ListedEmpty(owned: seq<Candidate>, table: Table, ids: set<string>)
    requires Lists(owned, table, ids)
    ensures owned == [] ==> ids == {}
  {
    if id :| id in ids { assert Candidate(id, table[id].created) in owned; }
  }

  lemma {:induction false} ListedCount(owned: seq<Candidate>, table: Table, ids: set<string>)
    requires Lists(owned, table, ids)
    ensures |owned| == |ids|
  {
    ListedEmpty(owned, table, ids);
    if owned != [] {
      var last := owned[|owned| - 1];
      var init := owned[..|owned| - 1];
      assert owned == init + [last] && last in owned && last !in init;
      forall c ensures c in init <==> c.id in ids - {last.id} && c.created == table[c.id].created {
        if c in init { assert c in owned; }
      }
      ListedCount(init, table, ids - {last.id});
    }
  }

  lemma ListedSorted(owned: seq<Candidate>, sorted: seq<Candidate>, table: Table, ids: set<string>)
    requires Lists(owned, table, ids) && multiset(owned) == multiset(sorted)
    ensures Lists(sorted, table, ids)
  {
    PermutedDistinct(owned, sorted);
    forall c ensures c in sorted <==> c in owned { assert c in multiset(sorted) <==> c in multiset(owned); }
  }

  lemma ListedTail(owned: seq<Candidate>, table: Table, ids: set<string>)
    requires Lists(owned, table, ids) && owned != []
    ensures owned[0].id in ids && Lists(owned[1..], table, ids - {owned[0].id})
  {
    assert owned[0] in owned && owned == [owned[0]] + owned[1..];
    forall c ensures c in owned[1..] <==> c.id in ids - {owned[0].id} && c.created == table[c.id].created {
      if c in owned[1..] { assert c in owned; }
    }
  }

  /** The candidates of one account, in whatever order the map yields them. */
  method Collect(table: Table, accountId: string) returns (owned: seq<Candidate>)
    ensures Lists(owned, table, Owned(table, accountId))
  {
    owned := [];
    var todo := table.Keys;
    while todo != {}
      invariant todo <= table.Keys && Lists(owned, table, Owned(table, accountId) - todo)
    {
      var id :| id in todo;
      if table[id].accountId == accountId {
        assert Candidate(id, table[id].created) !in owned;
        owned := owned + [Candidate(id, table[id].created)];
      }
      todo := todo - {id};
    }
    assert Owned(table, accountId) - {} == Owned(table, accountId);
  }

  lemma OldestFirst(owned: seq<Candidate>)
    requires owned != [] && Sorted(Older, owned)
    ensures Sorted(Older, owned[1..])
    ensures forall c :: c in owned[1..] ==> c in owned && owned[0].created <= c.created
  {
    forall i, j | 0 <= i < j < |owned[1..]| ensures !Older(owned[1..][j], owned[1..][i]) {
      assert !Older(owned[j + 1], owned[i + 1]);
    }
    forall c | c in owned[1..] ensures c in owned && owned[0].created <= c.created {
      var k :| 0 <= k < |owned[1..]| && owned[1..][k] == c;
      assert !Older(owned[k + 1], owned[0]);
    }
  }

  lemma EvictedIsTrimmed(table: Table, accountId: string, max: int, owned: seq<Candidate>, ids: set<string>, rest: Table)
    requires max > 0 && Lists(owned, table, ids) && ids <= Owned(table, accountId)
    requires rest == table - (Owned(table, accountId) - ids)
    requires |owned| == |ids| < max && (|owned| == max - 1 || ids == Owned(table, accountId))
    requires forall gone, c :: gone in Owned(table, accountId) - ids && c in owned ==> table[gone].created <= c.created
    ensures Trimmed(table, accountId, max, rest)
  {
    assert Owned(rest, accountId) == ids;
    SubsetSmaller(ids, Owned(table, accountId));
    forall gone, kept | gone in table && gone !in rest && kept in Owned(rest, accountId)
      ensures table[gone].created <= table[kept].created
    {
      assert Candidate(kept, table[kept].created) in owned;
    }
  }

  method EvictOldest(table: Table, accountId: string, max: int) returns (rest: Table)
    requires max > 0
    ensures Trimmed(table, accountId, max, rest)
  {
    var owned := Collect(table, accountId);
    var sorted := SortSlice(Older, owned);
    ListedSorted(owned, sorted, table, Owned(table, accountId));
    owned, rest := sorted, table;
    ghost var ids := Owned(table, accountId);
    ListedCount(owned, table, ids);
    while |owned| >= max
      invariant Lists(owned, table, ids) && Sorted(Older, owned)
      invariant ids <= Owned(table, accountId) && rest == table - (Owned(table, accountId) - ids)
      invariant |owned| == |ids| && (|owned| >= max - 1 || ids == Owned(table, accountId))
      invariant forall gone, c :: gone in Owned(table, accountId) - ids && c in owned ==> table[gone].created <= c.created
    {
      var oldest := owned[0];
      ListedTail(owned, table, ids);
      OldestFirst(owned);
      rest := rest - {oldest.id};
      owned, ids := owned[1..], ids - {oldest.id};
    }
    EvictedIsTrimmed(table, accountId, max, owned, ids, rest);
  }

  /** Delete, in a loop over a table, what a test condemns. */
  method DeleteWhere(table: Table, doomed: (string, Session) -> bool) returns (rest: Table)
    ensures rest == map id | id in table && !doomed(id, table[id]) :: table[id]
  {
    rest := table;
    var todo := table.Keys;
    while todo != {}
      invariant todo <= table.Keys
      invariant rest == map id | id in table && (id in todo || !doomed(id, table[id])) :: table[id]
    {
      var id :| id in todo;
      if doomed(id, table[id]) { rest := rest - {id}; }
      todo := todo - {id};
    }
  }

  // ----- The store ------------------------------------------------------------------------------

  /** What CreateSession leaves in the table. */
  ghost predicate Opened(before: Table, now: int, max: int, id: string, session: Session, after: Table) {
    exists rest :: Trimmed(Live(before, now), session.accountId, max, rest) && after == rest[id := session]
  }

  /** Of the sessions of other accounts those go that have expired, and no others; the account itself may
      lose its oldest as well. */
  ghost predicate OthersKept(before: Table, now: int, accountId: string, id: string, after: Table) {
    && (forall k :: k in after && k != id ==> k in before && after[k] == before[k] && now <= after[k].expires)
    && (forall k :: k in before && k !in after ==> now > before[k].expires || before[k].accountId == accountId)
  }

  function LiveOf(table: Table, now: int, accountId: string): set<string> {
    set k | k in table && table[k].accountId == accountId && now <= table[k].expires
  }

  /** Of the account's live sessions just enough are gone, and none is gone while an older one is kept. */
  ghost predicate OldestGone(before: Table, now: int, max: int, accountId: string, id: string, after: Table) {
    var live := LiveOf(before, now, accountId);
    && (id !in before ==> |Owned(after, accountId)| == if |live| < max then |live| + 1 else max)
    && (forall gone, kept :: gone in live && gone !in after && kept in after && kept != id && after[kept].accountId == accountId ==>
          before[gone].created <= after[kept].created)
  }

  lemma LiveOwned(table: Table, now: int, accountId: string)
    ensures LiveOf(table, now, accountId) == Owned(Live(table, now), accountId)
  {
  }

  lemma OneMoreId(ids: set<string>, id: string)
    requires id !in ids
    ensures |ids + {id}| == |ids| + 1
  {
  }

  lemma NotOwned(table: Table, now: int, accountId: string, max: int, rest: Table, id: string)
    requires Trimmed(Live(table, now), accountId, max, rest) && id !in table
    ensures id !in Owned(rest, accountId)
  {
  }

  lemma TrimmedCount(before: Table, now: int, max: int, rest: Table, id: string, session: Session)
    requires max > 0 && Trimmed(Live(before, now), session.accountId, max, rest) && id !in before
    ensures var live := |LiveOf(before, now, session.accountId)|;
      |Owned(rest[id := session], session.accountId)| == if live < max then live + 1 else max
  {
    LiveOwned(before, now, session.accountId);
    NotOwned(before, now, session.accountId, max, rest, id);
    OwnedPut(rest, id, session);
    OneMoreId(Owned(rest, session.accountId), id);
  }

  lemma TrimmedOldest(before: Table, now: int, max: int, rest: Table, id: string, session: Session)
    requires max > 0 && Trimmed(Live(before, now), session.accountId, max, rest)
    ensures OldestGone(before, now, max, session.accountId, id, rest[id := session])
  {
    if id !in before { TrimmedCount(before, now, max, rest, id, session); }
    forall gone, kept
      | gone in LiveOf(before, now, session.accountId) && gone !in rest && kept in rest && rest[kept].accountId == session.accountId
      ensures before[gone].created <= rest[kept].created
    {
      assert gone in Live(before, now) && kept in Owned(rest, session.accountId);
    }
  }

  lemma TrimmedKeeps(before: Table, now: int, max: int, rest: Table, id: string, session: Session)
    requires Trimmed(Live(before, now), session.accountId, max, rest)
    ensures OthersKept(before, now, session.accountId, id, rest[id := session])
  {
  }

  class SessionStore {
    const options: Options
    const persistent: bool
    const log: FailureLog
    var sessions: Table
    var saved: Table

    ghost predicate Valid()
      reads this, log
    {
      log.Valid() && options.maxSessions > 0 && log.window == options.failureWindow && log.maxFailures == options.maxFailures
    }

    /** NewSessionStore: without persistence it starts empty, and it refuses sessions that do not load. */
    static method Open(requested: Options, persistent: bool, loaded: Option<Table>, now: int)
      returns (r: Result<SessionStore, LoginFailure>)
      ensures r.Ok? <==> !persistent || loaded.Some?
      ensures r.Err? ==> r.error == NotLoaded
      ensures r.Ok? ==>
        var s := r.value;
        && fresh(s) && fresh(s.log) && s.Valid() && s.options == WithDefaults(requested) && s.persistent == persistent
        && s.sessions == (if !persistent then map[] else
             map id | id in loaded.value && loaded.value[id].expires > now :: loaded.value[id])
    {
      if persistent && loaded.None? { return Err(NotLoaded); }
      var store := new SessionStore(requested, persistent, if persistent then loaded.value else map[], now);
      return Ok(store);
    }

    /** The stored sessions that are still live are taken over as they are: no cap is applied. */
    constructor (requested: Options, persistent: bool, stored: Table, now: int)
      ensures Valid() && fresh(log) && options == WithDefaults(requested) && this.persistent == persistent
      ensures sessions == (map id | id in stored && stored[id].expires > now :: stored[id])
      ensures saved == stored
      ensures log.history == map[] && log.clock == now
    {
      options, this.persistent := WithDefaults(requested), persistent;
      log := new FailureLog(WithDefaults(requested).failureWindow, WithDefaults(requested).maxFailures, now);
      sessions := map id | id in stored && stored[id].expires > now :: stored[id];
      saved := stored;
    }

    method Save(works: bool) returns (ok: bool)
      modifies this`saved
      ensures ok == (!persistent || works)
      ensures saved == if persistent && works then sessions else old(saved)
    {
      if !persistent { return true; }
      if works { saved := sessions; }
      return works;
    }

    /** One attempt. A limited address does not get as far as its credentials, and an address never has
        more recent failures on record than the limit when this is how its failures arise. */
    method AuthenticatePassword(ip: string, verdict: Option<(string, string)>, now: int, later: int)
      returns (r: Result<(string, string), LoginFailure>)
      requires Valid() && log.clock <= now <= later
      modifies log
      ensures Valid() && log.clock == if r == Err(InvalidCredential) then later else now
      ensures r == if |After(Times(old(log.history), ip), now - options.failureWindow)| >= options.maxFailures
        then Err(RateLimited) else if verdict.Some? then Ok(verdict.value) else Err(InvalidCredential)
      ensures log.history == if r == Err(InvalidCredential)
        then old(log.history)[ip := Times(old(log.history), ip) + [later]] else old(log.history)
      ensures |old(log.Recent(ip, log.clock))| <= options.maxFailures ==> |log.Recent(ip, log.clock)| <= options.maxFailures
    {
      ghost var times := Times(log.history, ip);
      LaterFewer(times, log.clock - log.window, now - log.window);
      var limited := log.Limited(ip, now);
      if limited { return Err(RateLimited); }
      if verdict.None? {
        log.Fail(ip, later);
        AfterSnoc(times, later, later - log.window);
        LaterFewer(times, now - log.window, later - log.window);
        return Err(InvalidCredential);
      }
      return Ok(verdict.value);
    }

    /** A session is opened in memory even when it cannot be saved; the caller then gets an error. */
    method CreateSession(ip: string, accountId: string, identityId: string, userAgent: string,
                         id: string, csrf: string, now: int, works: bool)
      returns (r: Result<Session, LoginFailure>)
      requires Valid()
      modifies this`sessions, this`saved, log
      ensures Valid() && log.history == old(log.history) - {ip} && log.clock == old(log.clock)
      ensures
        var session := Session(accountId, identityId, csrf, now, now + options.sessionTtl, ip, Text.TrimSpace(userAgent));
        && Opened(old(sessions), now, options.maxSessions, id, session, sessions)
        && r == if persistent && !works then Err(NotSaved) else Ok(session)
      ensures saved == if persistent && works then sessions else old(saved)
      ensures id in sessions && OthersKept(old(sessions), now, accountId, id, sessions)
      ensures OldestGone(old(sessions), now, options.maxSessions, accountId, id, sessions)
      ensures |Owned(sessions, accountId)| <= options.maxSessions
      ensures WithinCap(old(sessions), options.maxSessions) ==> WithinCap(sessions, options.maxSessions)
    {
      var session := Session(accountId, identityId, csrf, now, now + options.sessionTtl, ip, Text.TrimSpace(userAgent));
      var live := DeleteWhere(sessions, (_, s: Session) => now > s.expires);
      assert live == Live(sessions, now);
      var rest := EvictOldest(live, accountId, options.maxSessions);
      OneMoreFits(live, accountId, options.maxSessions, rest, id, session);
      if WithinCap(sessions, options.maxSessions) {
        CapKept(sessions, now, options.maxSessions, rest, id, session);
      }
      TrimmedKeeps(sessions, now, options.maxSessions, rest, id, session);
      TrimmedOldest(sessions, now, options.maxSessions, rest, id, session);
      sessions := rest[id := session];
      log.Forget(ip);
      var ok := Save(works);
      return if ok then Ok(session) else Err(NotSaved);
    }

    /** The session of a cookie, when it has not expired and its principal is still active; otherwise
        the entry goes. */
    method Get(id: string, now: int, active: (string, string) -> bool, works: bool) returns (r: Option<Session>)
      requires Valid()
      modifies this`sessions, this`saved
      ensures Valid()
      ensures r.Some? <==>
        && id in old(sessions) && now <= old(sessions)[id].expires
        && active(old(sessions)[id].accountId, old(sessions)[id].identityId)
      ensures r.Some? ==> r.value == old(sessions)[id] && sessions == old(sessions) && saved == old(saved)
      ensures r.None? ==>
        sessions == old(sessions) - {id} && saved == if persistent && works then sessions else old(saved)
      ensures WithinCap(old(sessions), options.maxSessions) ==> WithinCap(sessions, options.maxSessions)
    {
      if id !in sessions || now > sessions[id].expires || !active(sessions[id].accountId, sessions[id].identityId) {
        ghost var before := sessions;
        sessions := sessions - {id};
        if WithinCap(before, options.maxSessions) { FewerWithinCap(before, sessions, options.maxSessions); }
        var _ := Save(works);
        return None;
      }
      return Some(sessions[id]);
    }

    /** RevokeAccount, RevokeIdentityExcept and RevokeAll: they delete what a test condemns, and save. */
    method Revoke(doomed: (string, Session) -> bool, works: bool)
      requires Valid()
      modifies this`sessions, this`saved
      ensures Valid()
      ensures sessions == map id | id in old(sessions) && !doomed(id, old(sessions)[id]) :: old(sessions)[id]
      ensures saved == if persistent && works then sessions else old(saved)
      ensures WithinCap(old(sessions), options.maxSessions) ==> WithinCap(sessions, options.maxSessions)
    {
      var rest := DeleteWhere(sessions, doomed);
      if WithinCap(sessions, options.maxSessions) { FewerWithinCap(sessions, rest, options.maxSessions); }
      sessions := rest;
      var _ := Save(works);
    }

    method RevokeAccount(accountId: string, works: bool)
      requires Valid()
      modifies this`sessions, this`saved
      ensures Valid() && Owned(sessions, accountId) == {}
      ensures forall b :: b != accountId ==> Owned(sessions, b) == Owned(old(sessions), b)
      ensures forall id :: id in sessions ==> id in old(sessions) && sessions[id] == old(sessions)[id]
      ensures saved == if persistent && works then sessions else old(saved)
      ensures WithinCap(old(sessions), options.maxSessions) ==> WithinCap(sessions, options.maxSessions)
    {
      Revoke((_, s: Session) => s.accountId == accountId, works);
    }

    /** A displayed id is a shortened hash, so two sessions may share one; a single one of them goes. */
    method RevokeSession(accountId: string, display: string -> string, shown: string, works: bool) returns (revoked: bool)
      requires Valid()
      modifies this`sessions, this`saved
      ensures Valid()
      ensures revoked <==> exists id :: id in Owned(old(sessions), accountId) && display(id) == shown
      ensures !revoked ==> sessions == old(sessions) && saved == old(saved)
      ensures revoked ==> saved == if persistent && works then sessions else old(saved)
      ensures revoked ==>
        exists id :: id in Owned(old(sessions), accountId) && display(id) == shown && sessions == old(sessions) - {id}
      ensures WithinCap(old(sessions), options.maxSessions) ==> WithinCap(sessions, options.maxSessions)
    {
      var todo := sessions.Keys;
      while todo != {}
        invariant todo <= sessions.Keys && sessions == old(sessions) && saved == old(saved)
        invariant forall id :: id in Owned(sessions, accountId) - todo ==> display(id) != shown
      {
        var id :| id in todo;
        if sessions[id].accountId == accountId && display(id) == shown {
          ghost var before := sessions;
          assert id in Owned(before, accountId);
          sessions := sessions - {id};
          if WithinCap(before, options.maxSessions) { FewerWithinCap(before, sessions, options.maxSessions); }
          var _ := Save(works);
          return true;
        }
        todo := todo - {id};
      }
      return false;
    }

    /** A copy of the table after the expired sessions have been taken out of it; here a session that
        expires at this very instant goes too. */
    method SnapshotSessions(now: int, works: bool) returns (copy: Table)
      requires Valid()
      modifies this`sessions, this`saved
      ensures Valid() && copy == sessions
      ensures sessions == map id | id in old(sessions) && old(sessions)[id].expires > now :: old(sessions)[id]
      ensures saved == if sessions != old(sessions) && persistent && works then sessions else old(saved)
      ensures WithinCap(old(sessions), options.maxSessions) ==> WithinCap(sessions, options.maxSessions)
    {
      var rest := DeleteWhere(sessions, (_, s: Session) => s.expires <= now);
      if WithinCap(sessions, options.maxSessions) { FewerWithinCap(sessions, rest, options.maxSessions); }
      var changed := rest != sessions;
      sessions := rest;
      if changed { var _ := Save(works); }
      return sessions;
    }
  }
}
