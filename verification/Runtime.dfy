/** Applying a bundle to the local store, with rollback in reverse order (propagation/runtime.go). */
module PropagationRuntime {
  import opened Wrappers
  import opened JsonText
  import opened Sorting
  import opened PropagationPlan
  import Text

  datatype ObjectState = ObjectState(existing: Existing, payload: RawJson, reversible: bool)

  datatype AppliedRevision = AppliedRevision(kind: string, id: string, before: int, after: int, reversible: bool)

  datatype BundleResult = BundleResult(
    revisions: seq<AppliedRevision>, rolledBack: bool, rolledBackCount: nat, error: string)

  type Store = map<string, ObjectState>

  datatype ApplyOutcome = Written(state: ObjectState, revision: AppliedRevision) | Failed(error: string)

  function StateKey(s: ObjectState): string { Key(s.existing.kind, s.existing.id) }

  /** The state that stands for an object that was not there. */
  function Absent(kind: string, id: string): ObjectState {
    ObjectState(Existing(kind, id, NoDigest, "", 0, 0), Blank, true)
  }

  predicate IsAbsent(s: ObjectState) { s == Absent(s.existing.kind, s.existing.id) }

  /** One key set to a state, or removed when the state says it was not there. */
  function Reset(store: Store, s: ObjectState): Store {
    if IsAbsent(s) then store - {StateKey(s)} else store[StateKey(s) := s]
  }

  ghost predicate WellKept(store: Store) {
    forall k :: k in store ==> StateKey(store[k]) == k && !IsAbsent(store[k])
  }

  /** A product's store behind the adapter interface. Which calls succeed and what they write is
      arbitrary. The contract is that Apply writes its envelope's key only, and nothing when it
      fails; that Restore resets its state's key only, and nothing when it fails; and
      that Snapshot returns every object of the kinds it is asked for. */
  class LocalAdapter {
    var store: Store
    const applies: nat -> ApplyOutcome
    const restores: nat -> Option<string>
    const snapshotError: Option<string>
    var applyCalls: nat

    /** History: the key of every Restore call, and whether it succeeded. */
    var trace: seq<(string, bool)>

    constructor (store: Store, applies: nat -> ApplyOutcome, restores: nat -> Option<string>, snapshotError: Option<string>)
      ensures this.store == store && this.applies == applies && this.restores == restores
      ensures this.snapshotError == snapshotError && applyCalls == 0 && trace == []
    {
      this.store, this.applies, this.restores, this.snapshotError := store, applies, restores, snapshotError;
      applyCalls, trace := 0, [];
    }

    method Snapshot(kinds: set<string>) returns (r: Result<Store, string>)
      ensures r == if snapshotError.Some? then Err(snapshotError.value)
        else Ok(map k | k in store && store[k].existing.kind in kinds :: store[k])
    {
      if snapshotError.Some? { return Err(snapshotError.value); }
      return Ok(map k | k in store && store[k].existing.kind in kinds :: store[k]);
    }

    method Apply(e: Envelope) returns (r: Result<AppliedRevision, string>)
      modifies this`store, this`applyCalls
      ensures applyCalls == old(applyCalls) + 1
      ensures match applies(old(applyCalls))
              case Failed(error) => r == Err(error) && store == old(store)
              case Written(state, revision) => r == Ok(revision) && store == old(store)[KeyOf(e) := state]
    {
      var outcome := applies(applyCalls);
      applyCalls := applyCalls + 1;
      match outcome
      case Failed(error) => r := Err(error);
      case Written(state, revision) =>
        store := store[KeyOf(e) := state];
        r := Ok(revision);
    }

    method Restore(s: ObjectState) returns (error: Option<string>)
      modifies this`store, this`trace
      ensures error == restores(|old(trace)|)
      ensures trace == old(trace) + [(StateKey(s), error.None?)]
      ensures store == if error.None? then Reset(old(store), s) else old(store)
    {
      error := restores(|trace|);
      if error.None? { store := Reset(store, s); }
      trace := trace + [(StateKey(s), error.None?)];
    }
  }

  // ----- What the steps do ----------------------------------------------------------------------

  /** The store after the first n envelopes were written. */
  function Stepped(store: Store, source: seq<Envelope>, applies: nat -> ApplyOutcome, n: nat): Store
    requires n <= |source|
  {
    if n == 0 then store
    else match applies(n - 1)
      case Written(state, _) => Stepped(store, source, applies, n - 1)[KeyOf(source[n - 1]) := state]
      case Failed(_) => Stepped(store, source, applies, n - 1)
  }

  /** How many of the first calls succeed, up to limit. */
  function Successes(applies: nat -> ApplyOutcome, limit: nat): (n: nat)
    ensures n <= limit
    ensures forall i :: 0 <= i < n ==> applies(i).Written?
    ensures n < limit ==> applies(n).Failed?
  {
    if limit == 0 then 0
    else
      var n := Successes(applies, limit - 1);
      if n == limit - 1 && applies(n).Written? then limit else n
  }

  /** What the first n calls report, in call order. */
  function Revisions(applies: nat -> ApplyOutcome, n: nat): seq<AppliedRevision>
    requires forall i :: 0 <= i < n ==> applies(i).Written?
  {
    seq(n, i requires 0 <= i < n => applies(i).revision)
  }

  function AppliedKeys(source: seq<Envelope>, n: nat): (keys: seq<string>)
    requires n <= |source|
    ensures |keys| == n && forall i :: 0 <= i < n ==> keys[i] == KeyOf(source[i])
  {
    seq(n, i requires 0 <= i < n => KeyOf(source[i]))
  }

  /** A key whose former state can be brought back. */
  predicate CanRestore(before: Store, key: string) { key in before ==> before[key].reversible }

  /** The keys rollback restores, from the last one applied back to position i. */
  function RollbackKeys(before: Store, applied: seq<string>, i: nat): seq<string>
    requires i <= |applied|
    decreases |applied| - i
  {
    if i == |applied| then []
    else RollbackKeys(before, applied, i + 1) + if CanRestore(before, applied[i]) then [applied[i]] else []
  }

  function TraceKeys(trace: seq<(string, bool)>): (keys: seq<string>)
    ensures |keys| == |trace|
    ensures forall i :: 0 <= i < |trace| ==> keys[i] == trace[i].0
  {
    seq(|trace|, i requires 0 <= i < |trace| => trace[i].0)
  }

  function RestoredCount(trace: seq<(string, bool)>): nat {
    if trace == [] then 0
    else RestoredCount(trace[..|trace| - 1]) + if trace[|trace| - 1].1 then 1 else 0
  }

  /** What the failed restores add to the report, in the order of the calls. */
  function RestoreErrors(restores: nat -> Option<string>, trace: seq<(string, bool)>): string {
    if trace == [] then ""
    else
      var i := |trace| - 1;
      RestoreErrors(restores, trace[..i]) + ErrorText(restores(i), trace[i].0)
  }

  function ErrorText(error: Option<string>, key: string): string {
    if error.Some? then "; rollback " + key + ": " + error.value else ""
  }

  predicate Same(a: Store, b: Store, key: string) {
    (key in a <==> key in b) && (key in a ==> a[key] == b[key])
  }

  /** What ApplyLocal can restore from: the objects of the kinds that the bundle names. */
  function Captured(store: Store, source: seq<Envelope>): Store {
    map k | k in store && store[k].existing.kind in (set e | e in source :: e.kind) :: store[k]
  }

  /** Each key is as it was captured if some restore of it succeeded, and as the steps left it
      otherwise. */
  ghost predicate RolledBack(now: Store, before: Store, stepped: Store, trace: seq<(string, bool)>) {
    forall k :: Same(now, if (k, true) in trace then before else stepped, k)
  }

  method ApplyLocal(a: LocalAdapter, preview: Result<nat, string>, source: seq<Envelope>)
    returns (out: BundleResult, failed: Option<string>)
    requires WellKept(a.store) && a.applyCalls == 0 && a.trace == []
    modifies a
    // A bundle that the preview rejects, or whose snapshot fails, touches nothing.
    ensures preview.Err? ==> failed == Some(preview.error)
    ensures preview.Ok? && preview.value > 0 ==>
      failed == Some("preview contains " + Text.Decimal(preview.value) + " blocking issue(s)")
    ensures preview != Ok(0) || a.snapshotError.Some? ==>
      failed.Some? && a.store == old(a.store) && a.trace == [] && a.applyCalls == 0 && out == BundleResult([], false, 0, "")
    ensures preview == Ok(0) && a.snapshotError.Some? ==> failed == a.snapshotError
    // A bundle whose envelopes are all written leaves exactly their states and restores nothing.
    ensures preview == Ok(0) && a.snapshotError.None? && Successes(a.applies, |source|) == |source| ==>
      && failed.None? && a.trace == []
      && a.store == Stepped(old(a.store), source, a.applies, |source|)
      && Sorted(RevisionLess(), out.revisions)
      && multiset(out.revisions) == multiset(Revisions(a.applies, |source|))
      && !out.rolledBack && out.rolledBackCount == 0 && out.error == ""
    // Otherwise every reversible key written is restored in reverse order, once for each write.
    ensures preview == Ok(0) && a.snapshotError.None? && Successes(a.applies, |source|) < |source| ==>
      var n, before := Successes(a.applies, |source|), Captured(old(a.store), source);
      && failed == Some(a.applies(n).error) && out.revisions == Revisions(a.applies, n)
      && TraceKeys(a.trace) == RollbackKeys(before, AppliedKeys(source, n), 0)
      && RolledBack(a.store, before, Stepped(old(a.store), source, a.applies, n), a.trace)
      && out.rolledBackCount == RestoredCount(a.trace)
      && (out.rolledBack <==> out.rolledBackCount > 0)
      && out.error == a.applies(n).error + RestoreErrors(a.restores, a.trace)
      && forall i :: 0 <= i < |a.trace| ==> a.trace[i].1 == a.restores(i).None?
  {
    out, failed := BundleResult([], false, 0, ""), None;
    match preview {
      case Err(error) => return out, Some(error);
      case Ok(issues) =>
        if issues > 0 { return out, Some("preview contains " + Text.Decimal(issues) + " blocking issue(s)"); }
    }
    var kinds := set e | e in source :: e.kind;
    var snapshot := a.Snapshot(kinds);
    if snapshot.Err? { return out, Some(snapshot.error); }
    var before := snapshot.value;
    var revisions, applied, error := WriteAll(a, source);
    if error.Some? {
      assert before == Captured(old(a.store), source);
      assert forall e :: e in source ==> KeyOf(e)[|e.kind|] == '/';
      out := RollBack(a, before, applied, BundleResult(revisions, false, 0, error.value));
      return out, error;
    }
    RevisionLessIsOrder();
    var sorted := SortSlice(RevisionLess(), revisions);
    out := out.(revisions := sorted);
  }

  /** The apply loop, up to the first failure. */
  method WriteAll(a: LocalAdapter, source: seq<Envelope>)
    returns (revisions: seq<AppliedRevision>, applied: seq<string>, error: Option<string>)
    requires a.applyCalls == 0
    modifies a`store, a`applyCalls
    ensures var n := Successes(a.applies, |source|);
      && applied == AppliedKeys(source, n) && revisions == Revisions(a.applies, n)
      && a.store == Stepped(old(a.store), source, a.applies, n)
      && error == if n < |source| then Some(a.applies(n).error) else None
  {
    revisions, applied := [], [];
    for i := 0 to |source|
      invariant a.applyCalls == i && applied == AppliedKeys(source, i)
      invariant Successes(a.applies, i) == i && revisions == Revisions(a.applies, i)
      invariant a.store == Stepped(old(a.store), source, a.applies, i)
    {
      var e := source[i];
      var r := a.Apply(e);
      if r.Err? {
        FirstFailure(a.applies, |source|, i);
        return revisions, applied, Some(r.error);
      }
      NextWritten(source, a.applies, i);
      revisions := revisions + [r.value];
      applied := applied + [KeyOf(e)];
    }
    return revisions, applied, None;
  }

  lemma NextWritten(source: seq<Envelope>, applies: nat -> ApplyOutcome, i: nat)
    requires i < |source| && Successes(applies, i) == i && applies(i).Written?
    ensures Successes(applies, i + 1) == i + 1
    ensures AppliedKeys(source, i + 1) == AppliedKeys(source, i) + [KeyOf(source[i])]
    ensures Revisions(applies, i + 1) == Revisions(applies, i) + [applies(i).revision]
  {
  }

  /** The error text has been extended by what the restores so far reported. */
  ghost predicate Reported(a: LocalAdapter, before: string, after: string)
    reads a
  {
    after == before + RestoreErrors(a.restores, a.trace) && Truthful(a.restores, a.trace)
  }

  /** Each restore is recorded as it went. */
  ghost predicate Truthful(restores: nat -> Option<string>, trace: seq<(string, bool)>) {
    forall i :: 0 <= i < |trace| ==> trace[i].1 == restores(i).None?
  }

  lemma TruthfulSnoc(restores: nat -> Option<string>, trace: seq<(string, bool)>, key: string)
    requires Truthful(restores, trace)
    ensures Truthful(restores, trace + [(key, restores(|trace|).None?)])
  {
  }

  lemma AppendError(before: string, so: string, more: string, last: string, now: string)
    requires last == before + so && now == so + more
    ensures last + more == before + now
  {
  }

  /** The rollback loop. */
  method RollBack(a: LocalAdapter, before: Store, applied: seq<string>, result: BundleResult)
    returns (out: BundleResult)
    requires a.trace == [] && !result.rolledBack && result.rolledBackCount == 0
    requires forall k :: k in applied ==> '/' in k
    requires WellKept(before)
    modifies a`store, a`trace
    ensures TraceKeys(a.trace) == RollbackKeys(before, applied, 0)
    ensures RolledBack(a.store, before, old(a.store), a.trace)
    ensures out.rolledBackCount == RestoredCount(a.trace) && (out.rolledBack <==> out.rolledBackCount > 0)
    ensures out.revisions == result.revisions && Reported(a, result.error, out.error)
  {
    out := result;
    for i := |applied| downto 0
      invariant TraceKeys(a.trace) == RollbackKeys(before, applied, i)
      invariant Counted(a, before, old(a.store), out, result.error) && out.revisions == result.revisions
    {
      assert applied[i] in applied;
      var state := Former(before, applied[i]);
      if !state.reversible { continue; }
      out := RestoreOne(a, before, old(a.store), applied[i], state, out, result.error);
    }
  }

  /** What stood under a written key. */
  method Former(before: Store, key: string) returns (state: ObjectState)
    requires '/' in key && WellKept(before)
    ensures StateKey(state) == key && (if key in before then state == before[key] && !IsAbsent(state) else IsAbsent(state))
    ensures state.reversible == CanRestore(before, key)
  {
    if key in before { return before[key]; }
    var slash := Text.IndexOf(key, '/');
    assert key == key[..slash] + "/" + key[slash + 1..];
    return Absent(key[..slash], key[slash + 1..]);
  }

  /** What the loop maintains of the report. */
  ghost predicate Counted(a: LocalAdapter, before: Store, stepped: Store, out: BundleResult, error: string)
    reads a
  {
    && RolledBack(a.store, before, stepped, a.trace)
    && out.rolledBackCount == RestoredCount(a.trace) && (out.rolledBack <==> out.rolledBackCount > 0)
    && Reported(a, error, out.error)
  }

  method RestoreOne(a: LocalAdapter, ghost before: Store, ghost stepped: Store, key: string, state: ObjectState,
                    last: BundleResult, ghost error: string)
    returns (out: BundleResult)
    requires Counted(a, before, stepped, last, error) && StateKey(state) == key
    requires if key in before then state == before[key] && !IsAbsent(state) else IsAbsent(state)
    modifies a`store, a`trace
    ensures Counted(a, before, stepped, out, error) && out.revisions == last.revisions
    ensures TraceKeys(a.trace) == TraceKeys(old(a.trace)) + [key]
  {
    ghost var trace, store := a.trace, a.store;
    var failed := a.Restore(state);
    RestoreStep(before, stepped, store, trace, state, key, failed.None?);
    ReportStep(a, trace, key, error, last.error);
    if failed.Some? { return last.(error := last.error + ErrorText(failed, key)); }
    assert last.error + "" == last.error;
    return last.(rolledBack := true, rolledBackCount := last.rolledBackCount + 1);
  }

  /** The report lists each failed restore with its key and error, in the order of the calls, and nothing else. */
  lemma RestoreErrorsExactly(restores: nat -> Option<string>, trace: seq<(string, bool)>, key: string, ok: bool)
    ensures RestoreErrors(restores, []) == ""
    ensures RestoreErrors(restores, trace + [(key, ok)]) ==
      match restores(|trace|)
      case Some(error) => RestoreErrors(restores, trace) + ("; rollback " + key + ": " + error)
      case None => RestoreErrors(restores, trace)
  {
    ErrorsSnoc(restores, trace, key, ok);
  }

  lemma ErrorsSnoc(restores: nat -> Option<string>, trace: seq<(string, bool)>, key: string, ok: bool)
    ensures RestoreErrors(restores, trace + [(key, ok)]) == RestoreErrors(restores, trace) + ErrorText(restores(|trace|), key)
  {
    assert (trace + [(key, ok)])[..|trace|] == trace;
  }

  lemma ReportStep(a: LocalAdapter, trace: seq<(string, bool)>, key: string, error: string, last: string)
    requires last == error + RestoreErrors(a.restores, trace)
    requires Truthful(a.restores, trace)
    requires a.trace == trace + [(key, a.restores(|trace|).None?)]
    ensures Reported(a, error, last + ErrorText(a.restores(|trace|), key))
  {
    var more := ErrorText(a.restores(|trace|), key);
    TruthfulSnoc(a.restores, trace, key);
    ErrorsSnoc(a.restores, trace, key, a.restores(|trace|).None?);
    AppendError(error, RestoreErrors(a.restores, trace), more, last, RestoreErrors(a.restores, a.trace));
  }

  lemma RestoreStep(before: Store, stepped: Store, store: Store, trace: seq<(string, bool)>,
                    state: ObjectState, key: string, ok: bool)
    requires RolledBack(store, before, stepped, trace)
    requires StateKey(state) == key
    requires if key in before then state == before[key] && !IsAbsent(state) else IsAbsent(state)
    ensures RolledBack(if ok then Reset(store, state) else store, before, stepped, trace + [(key, ok)])
    ensures TraceKeys(trace + [(key, ok)]) == TraceKeys(trace) + [key]
    ensures RestoredCount(trace + [(key, ok)]) == RestoredCount(trace) + if ok then 1 else 0
  {
    assert (trace + [(key, ok)])[..|trace|] == trace;
    var now := if ok then Reset(store, state) else store;
    forall k ensures Same(now, if (k, true) in trace + [(key, ok)] then before else stepped, k) {
      assert Same(store, if (k, true) in trace then before else stepped, k);
      assert (k, true) in trace + [(key, ok)] <==> (k, true) in trace || (ok && k == key);
    }
  }

  function Backwards<T>(xs: seq<T>): seq<T> {
    if xs == [] then [] else Backwards(xs[1..]) + [xs[0]]
  }

  /** The keys of which the state before is known and can be brought back, in their order. */
  function Restorable(before: Store, keys: seq<string>): seq<string> {
    if keys == [] then []
    else if keys[0] in before && !before[keys[0]].reversible then Restorable(before, keys[1..])
    else [keys[0]] + Restorable(before, keys[1..])
  }

  /** Rollback undoes exactly those, the last one first. */
  lemma {:induction false} RollbackKeysExactly(before: Store, applied: seq<string>, i: nat)
    requires i <= |applied|
    ensures RollbackKeys(before, applied, i) == Backwards(Restorable(before, applied[i..]))
    decreases |applied| - i
  {
    if i < |applied| {
      RollbackKeysExactly(before, applied, i + 1);
      var rest := Restorable(before, applied[i + 1..]);
      assert applied[i..][1..] == applied[i + 1..];
      assert ([applied[i]] + rest)[1..] == rest;
    }
  }

  /** The last write of a key is what the steps leave there. */
  lemma {:induction false} LastWriteStays(store: Store, source: seq<Envelope>, applies: nat -> ApplyOutcome, n: nat, i: nat)
    requires i < n <= |source| && applies(i).Written?
    requires forall j :: i < j < n ==> KeyOf(source[j]) != KeyOf(source[i]) || applies(j).Failed?
    ensures KeyOf(source[i]) in Stepped(store, source, applies, n)
    ensures Stepped(store, source, applies, n)[KeyOf(source[i])] == applies(i).state
  {
    if i < n - 1 { LastWriteStays(store, source, applies, n - 1, i); }
  }

  function Succeeded(trace: seq<(string, bool)>): set<int> { set i | 0 <= i < |trace| && trace[i].1 }

  lemma SucceededSnoc(init: seq<(string, bool)>, t: (string, bool))
    ensures |Succeeded(init + [t])| == |Succeeded(init)| + if t.1 then 1 else 0
  {
    assert Succeeded(init + [t]) == Succeeded(init) + if t.1 then {|init|} else {};
  }

  lemma {:induction false} RestoredCountExactly(trace: seq<(string, bool)>)
    ensures RestoredCount(trace) == |Succeeded(trace)|
  {
    if trace != [] {
      var init, last := trace[..|trace| - 1], trace[|trace| - 1];
      RestoredCountExactly(init);
      SucceededSnoc(init, last);
      assert trace == init + [last];
    }
  }

  /** Revisions are reported by kind and then by id, each in lexicographic order. */
  lemma RevisionOrder(revisions: seq<AppliedRevision>, i: nat, j: nat)
    requires Sorted(RevisionLess(), revisions) && i < j < |revisions|
    ensures revisions[i].kind == revisions[j].kind || Text.Precedes(revisions[i].kind, revisions[j].kind)
    ensures revisions[i].kind == revisions[j].kind ==>
      revisions[i].id == revisions[j].id || Text.Precedes(revisions[i].id, revisions[j].id)
  {
    var a, b := revisions[i], revisions[j];
    assert !RevisionLess()(b, a);
    Text.LessTotal(a.kind, b.kind);
    Text.LessTotal(a.id, b.id);
    Text.LessExactly(a.kind, b.kind);
    Text.LessExactly(a.id, b.id);
  }

  lemma {:induction false} FirstFailure(applies: nat -> ApplyOutcome, limit: nat, n: nat)
    requires Successes(applies, n) == n && n < limit && applies(n).Failed?
    ensures Successes(applies, limit) == n
    decreases limit
  {
    if n < limit - 1 { FirstFailure(applies, limit - 1, n); }
  }

  /** A key with no slash in its kind splits one way only. */
  lemma KeysSplitOneWay(kind: string, id: string, kind': string, id': string)
    requires '/' !in kind && '/' !in kind' && Key(kind, id) == Key(kind', id')
    ensures kind == kind' && id == id'
  {
    var key := Key(kind, id);
    assert key[|kind|] == '/' && key[|kind'|] == '/';
    assert forall i :: 0 <= i < |kind| ==> key[i] == kind[i];
    assert forall i :: 0 <= i < |kind'| ==> key[i] == kind'[i];
    assert |kind| == |kind'|;
    assert kind == key[..|kind|] && id == key[|kind| + 1..];
    assert kind' == key[..|kind'|] && id' == key[|kind'| + 1..];
  }

  function RevisionLess(): (AppliedRevision, AppliedRevision) -> bool {
    (a: AppliedRevision, b: AppliedRevision) =>
      if a.kind == b.kind then Text.Less(a.id, b.id) else Text.Less(a.kind, b.kind)
  }

  lemma RevisionLessIsOrder()
    ensures StrictWeakOrder(RevisionLess())
  {
    var less, byItem := RevisionLess(), ItemLess();
    ItemLessIsOrder();
    forall a, b ensures less(a, b) == byItem(ItemNamed(a), ItemNamed(b)) { }
  }

  function ItemNamed(r: AppliedRevision): PlanItem { PlanItem(r.kind, r.id, Noop, "", 0, 0) }

  /** Every object that a written key held before the bundle is of a kind that the bundle names. */
  ghost predicate AllCaptured(former: Store, source: seq<Envelope>, n: nat)
    requires n <= |source|
  {
    forall k :: k in AppliedKeys(source, n) && k in former ==> k in Captured(former, source)
  }

  /** A failed bundle whose writes can all be restored, and are, leaves the store as it was, repeated
      keys included and one restore counted for every write, exactly when every object that a
      written key held is of a kind that the bundle names. */
  lemma FullRollback(now: Store, former: Store, source: seq<Envelope>, applies: nat -> ApplyOutcome, n: nat,
                     trace: seq<(string, bool)>)
    requires n <= |source|
    requires TraceKeys(trace) == RollbackKeys(Captured(former, source), AppliedKeys(source, n), 0)
    requires RolledBack(now, Captured(former, source), Stepped(former, source, applies, n), trace)
    requires forall k :: k in AppliedKeys(source, n) ==> CanRestore(Captured(former, source), k)
    requires forall t :: t in trace ==> t.1
    ensures RestoredCount(trace) == n
    ensures now == former <==> AllCaptured(former, source, n)
  {
    var applied, before := AppliedKeys(source, n), Captured(former, source);
    RollbackAll(before, applied, 0);
    AllRestored(trace);
    forall k ensures Same(now, if k in applied then before else former, k) {
      assert Same(now, if (k, true) in trace then before else Stepped(former, source, applies, n), k);
      if k in applied {
        var i :| 0 <= i < |TraceKeys(trace)| && TraceKeys(trace)[i] == k;
        assert trace[i] in trace && trace[i] == (k, true);
      } else {
        TraceWithin(before, applied, trace, k);
        UnwrittenUnchanged(former, source, applies, n, k);
      }
    }
    if AllCaptured(former, source, n) {
      forall k ensures Same(now, former, k) { assert Same(now, if k in applied then before else former, k); }
      SameEverywhere(now, former);
    }
    if now == former {
      forall k | k in applied && k in former ensures k in before {
        assert Same(now, if k in applied then before else former, k);
      }
    }
  }

  lemma TraceWithin(before: Store, applied: seq<string>, trace: seq<(string, bool)>, k: string)
    requires TraceKeys(trace) == RollbackKeys(before, applied, 0) && k !in applied
    ensures (k, true) !in trace
  {
    RollbackWithin(before, applied, 0, k);
    forall i | 0 <= i < |trace| ensures trace[i].0 != k { assert TraceKeys(trace)[i] == trace[i].0; }
  }

  lemma {:induction false} RollbackWithin(before: Store, applied: seq<string>, i: nat, k: string)
    requires i <= |applied| && k !in applied
    ensures k !in RollbackKeys(before, applied, i)
    decreases |applied| - i
  {
    if i < |applied| { RollbackWithin(before, applied, i + 1, k); }
  }

  /** That is so when no kind has a slash in it, because a key then names one object only. */
  lemma NoSlashCaptures(former: Store, source: seq<Envelope>, n: nat)
    requires WellKept(former) && n <= |source|
    requires forall e :: e in source ==> '/' !in e.kind
    requires forall k :: k in former ==> '/' !in former[k].existing.kind
    ensures AllCaptured(former, source, n)
  {
    forall k | k in AppliedKeys(source, n) && k in former ensures k in Captured(former, source) {
      var i :| 0 <= i < n && AppliedKeys(source, n)[i] == k;
      assert source[i] in source;
      KeysSplitOneWay(source[i].kind, source[i].id, former[k].existing.kind, former[k].existing.id);
    }
  }

  /** A slash in a kind can lose an object: kind a/b with id c and kind a with id b/c share a key. The
      store holds the latter, the bundle writes the former and then fails on an envelope of another
      kind; after a rollback in which every restore succeeds the object is gone. */
  lemma SlashLoses(e: Envelope, f: Envelope, held: ObjectState, applies: nat -> ApplyOutcome, now: Store, trace: seq<(string, bool)>)
    requires e.kind == "a/b" && e.id == "c" && f.kind != "a"
    requires held.existing.kind == "a" && held.existing.id == "b/c" && !IsAbsent(held)
    requires applies(0).Written? && applies(1).Failed?
    requires var former, source := map[StateKey(held) := held], [e, f];
      && TraceKeys(trace) == RollbackKeys(Captured(former, source), AppliedKeys(source, 1), 0)
      && RolledBack(now, Captured(former, source), Stepped(former, source, applies, 1), trace)
      && forall t :: t in trace ==> t.1
    ensures WellKept(map[StateKey(held) := held]) && Successes(applies, 2) == 1
    ensures now != map[StateKey(held) := held] && StateKey(held) !in now
  {
    var former, source := map[StateKey(held) := held], [e, f];
    assert KeyOf(e) == "a/b/c" == StateKey(held);
    assert AppliedKeys(source, 1) == [KeyOf(e)];
    var before := Captured(former, source);
    assert KeyOf(e) !in before;
    assert Successes(applies, 1) == 1;
    assert CanRestore(before, KeyOf(e));
    assert !AllCaptured(former, source, 1);
    FullRollback(now, former, source, applies, 1, trace);
    RollbackAll(before, AppliedKeys(source, 1), 0);
    assert TraceKeys(trace)[0] == KeyOf(e) && trace[0] in trace && trace[0] == (KeyOf(e), true);
    assert Same(now, before, KeyOf(e));
  }

  lemma SameEverywhere(a: Store, b: Store)
    requires forall k :: Same(a, b, k)
    ensures a == b
  {
    forall k ensures k in a.Keys <==> k in b.Keys { assert Same(a, b, k); }
    forall k | k in a ensures a[k] == b[k] { assert Same(a, b, k); }
  }

  lemma {:induction false} RollbackAll(former: Store, applied: seq<string>, i: nat)
    requires i <= |applied| && forall k :: k in applied ==> CanRestore(former, k)
    ensures |RollbackKeys(former, applied, i)| == |applied| - i
    ensures forall j :: i <= j < |applied| ==> applied[j] in RollbackKeys(former, applied, i)
    decreases |applied| - i
  {
    if i < |applied| { RollbackAll(former, applied, i + 1); }
  }

  lemma {:induction false} AllRestored(trace: seq<(string, bool)>)
    requires forall t :: t in trace ==> t.1
    ensures RestoredCount(trace) == |trace|
  {
    if trace != [] { AllRestored(trace[..|trace| - 1]); }
  }

  lemma {:induction false} UnwrittenUnchanged(store: Store, source: seq<Envelope>, applies: nat -> ApplyOutcome, n: nat, key: string)
    requires n <= |source| && key !in AppliedKeys(source, n)
    ensures Same(Stepped(store, source, applies, n), store, key)
  {
    if n > 0 {
      assert AppliedKeys(source, n)[n - 1] == KeyOf(source[n - 1]);
      forall k | k in AppliedKeys(source, n - 1) ensures k in AppliedKeys(source, n) {
        var i :| 0 <= i < n - 1 && AppliedKeys(source, n - 1)[i] == k;
        assert AppliedKeys(source, n)[i] == k;
      }
      UnwrittenUnchanged(store, source, applies, n - 1, key);
    }
  }
}
