/** Executing a plan on several nodes (propagation/transaction.go): validate all, apply in order, and
    on a failure roll back the nodes applied before it. */
module PropagationTransaction {
  import opened Wrappers
  import opened PropagationRuntime

  datatype NodeResult = NodeResult(
    node: string, validated: bool, applied: bool, rolledBack: bool, revisions: seq<AppliedRevision>, error: string)

  datatype TransactionResult = TransactionResult(results: seq<NodeResult>, partial: bool)

  /** The nodes behind the executor interface. Which calls succeed is arbitrary. The contract is that a
      successful Apply makes the plan live on its node, a successful Rollback makes it not live, and
      a failed call changes nothing. Positions tell apart two nodes of one name. */
  class Executor {
    const validates: nat -> Option<string>
    const applies: nat -> Result<seq<AppliedRevision>, string>
    const rollbacks: nat -> Option<string>
    var validateCalls: nat
    var applyCalls: nat
    var rollbackCalls: nat

    /** The positions of the nodes on which the plan is live. */
    ghost var live: set<nat>

    /** History: the position and the revisions of every Rollback call. */
    ghost var undone: UndoCalls

    /** History: the node name of every Validate, Apply and Rollback call. */
    ghost var asked: seq<string>
    ghost var appliedTo: seq<string>
    ghost var undoneOn: seq<string>

    constructor (validates: nat -> Option<string>, applies: nat -> Result<seq<AppliedRevision>, string>,
                 rollbacks: nat -> Option<string>)
      ensures this.validates == validates && this.applies == applies && this.rollbacks == rollbacks
      ensures validateCalls == applyCalls == rollbackCalls == 0 && live == {} && undone == []
      ensures asked == appliedTo == undoneOn == []
    {
      this.validates, this.applies, this.rollbacks := validates, applies, rollbacks;
      validateCalls, applyCalls, rollbackCalls := 0, 0, 0;
      live, undone, asked, appliedTo, undoneOn := {}, [], [], [], [];
    }

    method Validate(node: string) returns (error: Option<string>)
      modifies this`validateCalls, this`asked
      ensures validateCalls == old(validateCalls) + 1 && error == validates(old(validateCalls))
      ensures asked == old(asked) + [node]
    {
      error := validates(validateCalls);
      validateCalls := validateCalls + 1;
      asked := asked + [node];
    }

    method Apply(node: string, ghost at: nat) returns (r: Result<seq<AppliedRevision>, string>)
      modifies this`applyCalls, this`live, this`appliedTo
      ensures appliedTo == old(appliedTo) + [node]
      ensures r == applies(old(applyCalls)) && applyCalls == old(applyCalls) + 1
      ensures live == if r.Ok? then old(live) + {at} else old(live)
    {
      r := applies(applyCalls);
      applyCalls := applyCalls + 1;
      if r.Ok? { live := live + {at}; }
      appliedTo := appliedTo + [node];
    }

    method Rollback(node: string, ghost at: nat, revisions: seq<AppliedRevision>) returns (error: Option<string>)
      modifies this`rollbackCalls, this`live, this`undone, this`undoneOn
      ensures error == rollbacks(old(rollbackCalls)) && rollbackCalls == old(rollbackCalls) + 1
      ensures live == if error.None? then old(live) - {at} else old(live)
      ensures undone == old(undone) + [(at, revisions)] && undoneOn == old(undoneOn) + [node]
    {
      error := rollbacks(rollbackCalls);
      rollbackCalls := rollbackCalls + 1;
      if error.None? { live := live - {at}; }
      undone, undoneOn := undone + [(at, revisions)], undoneOn + [node];
    }
  }

  /** The node passed validation and its apply failed. */
  predicate ApplyFailed(r: NodeResult) { r.validated && !r.applied }

  predicate Standing(r: NodeResult) { r.applied && !r.rolledBack }

  type UndoCalls = seq<(nat, seq<AppliedRevision>)>

  /** The number of the Apply call for node k: one for every node before it that validated. */
  ghost function ApplyCall(validates: nat -> Option<string>, k: nat): nat {
    if k == 0 then 0 else ApplyCall(validates, k - 1) + if validates(k - 1).None? then 1 else 0
  }

  /** What the answers of node k make of its result, with n nodes gone through, before any rollback. */
  ghost function Base(ex: Executor, node: string, k: nat, n: nat): NodeResult {
    match ex.validates(k)
    case Some(error) => NodeResult(node, false, false, false, [], error)
    case None =>
      var r := NodeResult(node, true, false, false, [], "");
      if k >= n then r
      else match ex.applies(ApplyCall(ex.validates, k))
        case Ok(revisions) => r.(applied := true, revisions := revisions)
        case Err(error) => r.(error := error)
  }

  /** A result after an attempt to roll it back. */
  function Noted(r: NodeResult, error: Option<string>): NodeResult {
    if error.None? then r.(rolledBack := true)
    else if r.error == "" then r.(error := "rollback: " + error.value)
    else r
  }

  /** The result of node k after all rollback calls made so far. */
  ghost function AfterUndo(rollbacks: nat -> Option<string>, undone: UndoCalls, k: nat, r: NodeResult): NodeResult {
    if undone == [] then r
    else
      var c := |undone| - 1;
      var before := AfterUndo(rollbacks, undone[..c], k, r);
      if undone[c].0 == k then Noted(before, rollbacks(c)) else before
  }

  /** Rollback call c was for node k and had that outcome. */
  ghost predicate Rolled(rollbacks: nat -> Option<string>, undone: UndoCalls, k: nat, c: nat, ok: bool) {
    c < |undone| && undone[c].0 == k && (rollbacks(c).None? <==> ok)
  }

  /** Rollback call c is the first one for node k that failed. */
  ghost predicate FirstFailed(rollbacks: nat -> Option<string>, undone: UndoCalls, k: nat, c: nat) {
    Rolled(rollbacks, undone, k, c, false) && forall d: nat :: d < c ==> !Rolled(rollbacks, undone, k, d, false)
  }

  /** Rolled back is a node with a successful Rollback call, and one that shows an error afterwards had
      one before or has a Rollback call that failed (FirstFailureShown says which). */
  lemma {:induction false} AfterUndoMeans(rollbacks: nat -> Option<string>, undone: UndoCalls, k: nat, r: NodeResult)
    ensures var s := AfterUndo(rollbacks, undone, k, r);
      && s == r.(rolledBack := s.rolledBack, error := s.error)
      && (s.rolledBack <==> r.rolledBack || exists c :: Rolled(rollbacks, undone, k, c, true))
      && (s.error != "" <==> r.error != "" || exists c :: Rolled(rollbacks, undone, k, c, false))
      && (r.error != "" ==> s.error == r.error)
  {
    if undone != [] {
      AfterUndoMeans(rollbacks, undone[..|undone| - 1], k, r);
      RolledBefore(rollbacks, undone, undone[..|undone| - 1], k, true);
      RolledBefore(rollbacks, undone, undone[..|undone| - 1], k, false);
    } else {
      assert forall c, ok :: !Rolled(rollbacks, undone, k, c, ok);
    }
  }

  /** Of several failed Rollback calls the first is the one shown, unless the node had an error of its own. */
  lemma {:induction false} FirstFailureShown(rollbacks: nat -> Option<string>, undone: UndoCalls, k: nat, r: NodeResult, c: nat)
    requires FirstFailed(rollbacks, undone, k, c) && r.error == ""
    ensures AfterUndo(rollbacks, undone, k, r).error == "rollback: " + rollbacks(c).value
  {
    var init := undone[..|undone| - 1];
    if c == |undone| - 1 {
      AfterUndoMeans(rollbacks, init, k, r);
      if d :| Rolled(rollbacks, init, k, d, false) { assert Rolled(rollbacks, undone, k, d, false); }
    } else {
      forall d: nat | d < c ensures !Rolled(rollbacks, init, k, d, false) {
        assert !Rolled(rollbacks, undone, k, d, false);
      }
      FirstFailureShown(rollbacks, init, k, r, c);
    }
  }

  lemma RolledBefore(rollbacks: nat -> Option<string>, undone: UndoCalls, init: UndoCalls, k: nat, ok: bool)
    requires undone != [] && init == undone[..|undone| - 1]
    ensures (exists c :: Rolled(rollbacks, undone, k, c, ok)) <==>
      (exists c :: Rolled(rollbacks, init, k, c, ok)) || Rolled(rollbacks, undone, k, |undone| - 1, ok)
  {
    if c :| Rolled(rollbacks, init, k, c, ok) { assert Rolled(rollbacks, undone, k, c, ok); }
    if c :| Rolled(rollbacks, undone, k, c, ok) { assert c == |undone| - 1 || Rolled(rollbacks, init, k, c, ok); }
  }

  lemma AfterUndoSnoc(rollbacks: nat -> Option<string>, undone: UndoCalls, at: nat, revisions: seq<AppliedRevision>,
                      k: nat, r: NodeResult)
    ensures var before := AfterUndo(rollbacks, undone, k, r);
      AfterUndo(rollbacks, undone + [(at, revisions)], k, r) == if at == k then Noted(before, rollbacks(|undone|)) else before
  {
    assert (undone + [(at, revisions)])[..|undone|] == undone;
  }

  lemma {:induction false} NoCalls(rollbacks: nat -> Option<string>, undone: UndoCalls, k: nat, r: NodeResult)
    requires forall c :: c in undone ==> c.0 != k
    ensures AfterUndo(rollbacks, undone, k, r) == r
  {
    if undone != [] { NoCalls(rollbacks, undone[..|undone| - 1], k, r); }
  }

  /** The report, with n nodes gone through, is what the answers of the nodes make of it. */
  ghost predicate Reports(results: seq<NodeResult>, ex: Executor, nodes: seq<string>, n: nat, undone: UndoCalls) {
    && |results| == |nodes| && (forall c :: c in undone ==> c.0 < n && c.0 < |nodes| && results[c.0].applied)
    && forall k :: 0 <= k < |nodes| ==> results[k] == AfterUndo(ex.rollbacks, undone, k, Base(ex, nodes[k], k, n))
  }

  /** The rollback calls one failure causes: every applied node among the first n, in order. */
  ghost function UndoBefore(results: seq<NodeResult>, n: nat): UndoCalls
    requires n <= |results|
  {
    if n == 0 then []
    else if results[n - 1].applied then UndoBefore(results, n - 1) + [(n - 1, results[n - 1].revisions)]
    else UndoBefore(results, n - 1)
  }

  /** All rollback calls of the first n applies: one round for every failure. */
  ghost function UndoRounds(results: seq<NodeResult>, n: nat): UndoCalls
    requires n <= |results|
  {
    if n == 0 then []
    else if ApplyFailed(results[n - 1]) then UndoRounds(results, n - 1) + UndoBefore(results, n - 1)
    else UndoRounds(results, n - 1)
  }

  /** What the report says of the nodes up to position n, against the nodes themselves. */
  ghost predicate Honest(results: seq<NodeResult>, n: nat, live: set<nat>)
    requires n <= |results|
  {
    && (forall i :: i in live <==> 0 <= i < n && Standing(results[i]))
    && (forall i :: 0 <= i < |results| && results[i].rolledBack ==> results[i].applied)
    && (forall i :: 0 <= i < |results| && results[i].applied ==> results[i].validated && i < n)
  }

  /** Every node applied before a failed one is rolled back or shows an error. */
  ghost predicate Undone(results: seq<NodeResult>, n: nat)
    requires n <= |results|
  {
    forall j, k :: 0 <= j < k < n && results[j].applied && ApplyFailed(results[k]) ==>
      results[j].rolledBack || results[j].error != ""
  }

  /** Same report but for the rollback outcome and the error text. */
  ghost predicate SameButRollback(a: seq<NodeResult>, b: seq<NodeResult>) {
    |a| == |b| && forall i :: 0 <= i < |a| ==>
      a[i].node == b[i].node && a[i].validated == b[i].validated && a[i].applied == b[i].applied
      && a[i].revisions == b[i].revisions && (!a[i].applied ==> a[i] == b[i])
      && (a[i].rolledBack ==> b[i].rolledBack) && (a[i].error != "" ==> b[i].error != "")
  }

  method Execute(ex: Executor, nodes: seq<string>, rollbackOnFailure: bool) returns (out: TransactionResult)
    requires ex.validateCalls == ex.applyCalls == ex.rollbackCalls == 0 && ex.live == {} && ex.undone == []
    requires ex.asked == ex.appliedTo == ex.undoneOn == []
    modifies ex
    // Every node is asked to validate once, and every node that validated is asked to apply once.
    ensures ex.validateCalls == |nodes| && ex.applyCalls == ApplyCall(ex.validates, |nodes|)
    ensures ex.asked == nodes && ex.appliedTo == ValidNodes(ex.validates, nodes, |nodes|)
    // Every Rollback call goes to the node that the revisions it hands over come from.
    ensures Addressed(ex.undone, ex.undoneOn, nodes)
    ensures forall c :: c in ex.undone ==> c.0 < |out.results| && c.1 == out.results[c.0].revisions
    // One result for each node, in order: validated and applied as the node said, with its revisions
    // or its error, and rolled back exactly when a Rollback call for it succeeded.
    ensures |out.results| == |nodes|
    ensures forall i :: 0 <= i < |nodes| ==> Told(out.results[i], ex, nodes[i], i)
    ensures forall i :: 0 <= i < |nodes| ==>
      (out.results[i].rolledBack <==> exists c :: Rolled(ex.rollbacks, ex.undone, i, c, true))
    ensures forall i :: 0 <= i < |nodes| && out.results[i].applied ==>
      (out.results[i].error != "" <==> exists c :: Rolled(ex.rollbacks, ex.undone, i, c, false))
    ensures Reports(out.results, ex, nodes, |nodes|, ex.undone) && ex.rollbackCalls == |ex.undone|
    // The report is honest: applied and not rolled back means live.
    ensures Honest(out.results, |nodes|, ex.live)
    // Partial: live on some nodes but not on all.
    ensures out.partial <==> ex.live != {} && exists i :: 0 <= i < |nodes| && i !in ex.live
    // With rollback, nothing applied before a failure stays silently; without, nothing is rolled back.
    ensures rollbackOnFailure ==> Undone(out.results, |nodes|)
    ensures ex.undone == if rollbackOnFailure then UndoRounds(out.results, |nodes|) else []
    ensures !rollbackOnFailure ==> forall i :: 0 <= i < |nodes| ==> !out.results[i].rolledBack
  {
    var results := ValidateAll(ex, nodes);
    BeforeApply(ex, nodes, results, rollbackOnFailure);
    results := ApplyAll(ex, nodes, results, rollbackOnFailure);
    if rollbackOnFailure { RoundsHandOver(results, |nodes|); }
    ReportMeans(results, ex, nodes, ex.undone);
    var successes := CountStanding(results);
    PartialMeans(results, ex.live, successes);
    out := TransactionResult(results, 0 < successes < |results|);
  }

  /** Call c was for the node at position undone[c].0, under its name. */
  ghost predicate Addressed(undone: UndoCalls, names: seq<string>, nodes: seq<string>) {
    |names| == |undone| && forall c :: 0 <= c < |undone| ==> undone[c].0 < |nodes| && names[c] == nodes[undone[c].0]
  }

  ghost predicate Counted(ex: Executor, nodes: seq<string>) reads ex {
    ex.rollbackCalls == |ex.undone| && Addressed(ex.undone, ex.undoneOn, nodes)
  }

  /** The names of the first n nodes that validated. */
  ghost function ValidNodes(validates: nat -> Option<string>, nodes: seq<string>, n: nat): seq<string>
    requires n <= |nodes|
  {
    if n == 0 then []
    else ValidNodes(validates, nodes, n - 1) + if validates(n - 1).None? then [nodes[n - 1]] else []
  }

  /** The Apply call for node k carries its name. */
  lemma {:induction false} ApplyAddressed(validates: nat -> Option<string>, nodes: seq<string>, n: nat, k: nat)
    requires k < n <= |nodes| && validates(k).None?
    ensures |ValidNodes(validates, nodes, n)| == ApplyCall(validates, n)
    ensures ApplyCall(validates, k) < ApplyCall(validates, n)
    ensures ValidNodes(validates, nodes, n)[ApplyCall(validates, k)] == nodes[k]
  {
    ValidNodesCount(validates, nodes, n - 1);
    if k < n - 1 { ApplyAddressed(validates, nodes, n - 1, k); }
  }

  lemma {:induction false} ValidNodesCount(validates: nat -> Option<string>, nodes: seq<string>, n: nat)
    requires n <= |nodes|
    ensures |ValidNodes(validates, nodes, n)| == ApplyCall(validates, n)
  {
    if n > 0 { ValidNodesCount(validates, nodes, n - 1); }
  }

  /** One round goes through the applied nodes in ascending order, each with its own revisions. */
  lemma {:induction false} UndoBeforeExactly(results: seq<NodeResult>, n: nat, at: nat, revisions: seq<AppliedRevision>)
    requires n <= |results|
    ensures var calls := UndoBefore(results, n);
      && (forall c, d :: 0 <= c < d < |calls| ==> calls[c].0 < calls[d].0)
      && (forall c :: 0 <= c < |calls| ==> calls[c].0 < n)
      && ((at, revisions) in calls <==> at < n && results[at].applied && revisions == results[at].revisions)
  {
    if n > 0 { UndoBeforeExactly(results, n - 1, at, revisions); }
  }

  lemma {:induction false} RoundsHandOver(results: seq<NodeResult>, n: nat)
    requires n <= |results|
    ensures forall c :: c in UndoRounds(results, n) ==>
      c.0 < n && results[c.0].applied && c.1 == results[c.0].revisions
  {
    if n > 0 {
      RoundsHandOver(results, n - 1);
      forall c | c in UndoBefore(results, n - 1) ensures c.0 < n && results[c.0].applied && c.1 == results[c.0].revisions {
        UndoBeforeExactly(results, n - 1, c.0, c.1);
      }
    }
  }

  /** What holds after the first n nodes, of the report and of the executor. */
  ghost predicate Through(ex: Executor, nodes: seq<string>, results: seq<NodeResult>, n: nat, rollbackOnFailure: bool)
    reads ex
  {
    && n <= |nodes| && Reports(results, ex, nodes, n, ex.undone) && Counted(ex, nodes)
    && ex.applyCalls == ApplyCall(ex.validates, n) && ex.appliedTo == ValidNodes(ex.validates, nodes, n)
    && Progress(results, n, ex.live, ex.undone, rollbackOnFailure)
  }

  lemma BeforeApply(ex: Executor, nodes: seq<string>, results: seq<NodeResult>, rollbackOnFailure: bool)
    requires |results| == |nodes| && forall k :: 0 <= k < |nodes| ==> results[k] == Base(ex, nodes[k], k, 0)
    requires ex.applyCalls == ex.rollbackCalls == 0 && ex.live == {} && ex.undone == []
    requires ex.appliedTo == ex.undoneOn == []
    ensures Through(ex, nodes, results, 0, rollbackOnFailure)
  {
  }

  /** The apply phase. */
  method ApplyAll(ex: Executor, nodes: seq<string>, before: seq<NodeResult>, rollbackOnFailure: bool)
    returns (results: seq<NodeResult>)
    requires Through(ex, nodes, before, 0, rollbackOnFailure)
    modifies ex`applyCalls, ex`rollbackCalls, ex`live, ex`undone, ex`appliedTo, ex`undoneOn
    ensures Through(ex, nodes, results, |nodes|, rollbackOnFailure)
  {
    results := before;
    for i := 0 to |nodes|
      invariant Through(ex, nodes, results, i, rollbackOnFailure)
    {
      if results[i].validated {
        results := ApplyNode(ex, nodes, results, i, rollbackOnFailure);
      } else {
        PassedThrough(ex, nodes, results, i, rollbackOnFailure);
      }
    }
  }

  lemma PassedThrough(ex: Executor, nodes: seq<string>, results: seq<NodeResult>, i: nat, rollbackOnFailure: bool)
    requires Through(ex, nodes, results, i, rollbackOnFailure) && i < |nodes| && !results[i].validated
    ensures Through(ex, nodes, results, i + 1, rollbackOnFailure)
  {
    Passed(results, i, ex.live, ex.undone, rollbackOnFailure);
    PassedReports(results, ex, nodes, i, ex.undone);
  }

  lemma PartialMeans(results: seq<NodeResult>, live: set<nat>, successes: nat)
    requires Honest(results, |results|, live)
    requires successes > 0 <==> exists i :: 0 <= i < |results| && Standing(results[i])
    requires successes < |results| <==> exists i :: 0 <= i < |results| && !Standing(results[i])
    ensures 0 < successes < |results| <==> live != {} && exists i :: 0 <= i < |results| && i !in live
  {
    if i :| i in live { assert Standing(results[i]); }
    if i :| 0 <= i < |results| && Standing(results[i]) { assert i in live; }
  }

  /** The result of node k against the answers that node gave. */
  ghost predicate Told(r: NodeResult, ex: Executor, node: string, k: nat) {
    && r.node == node
    && (r.validated <==> ex.validates(k).None?)
    && (!r.validated ==> !r.applied && r.revisions == [] && r.error == ex.validates(k).value)
    && (r.validated ==>
          match ex.applies(ApplyCall(ex.validates, k))
          case Ok(revisions) => r.applied && r.revisions == revisions
          case Err(error) => !r.applied && r.revisions == [] && r.error == error)
  }

  lemma ReportMeans(results: seq<NodeResult>, ex: Executor, nodes: seq<string>, undone: UndoCalls)
    requires Reports(results, ex, nodes, |nodes|, undone)
    ensures forall k :: 0 <= k < |nodes| ==> Told(results[k], ex, nodes[k], k)
    ensures forall k :: 0 <= k < |nodes| ==>
      (results[k].rolledBack <==> exists c :: Rolled(ex.rollbacks, undone, k, c, true))
    ensures forall k :: 0 <= k < |nodes| && results[k].applied ==>
      (results[k].error != "" <==> exists c :: Rolled(ex.rollbacks, undone, k, c, false))
  {
    forall k | 0 <= k < |nodes|
      ensures Told(results[k], ex, nodes[k], k)
      ensures results[k].rolledBack <==> exists c :: Rolled(ex.rollbacks, undone, k, c, true)
      ensures results[k].applied ==> (results[k].error != "" <==> exists c :: Rolled(ex.rollbacks, undone, k, c, false))
    {
      AfterUndoMeans(ex.rollbacks, undone, k, Base(ex, nodes[k], k, |nodes|));
      if !results[k].applied { NoCalls(ex.rollbacks, undone, k, Base(ex, nodes[k], k, |nodes|)); }
    }
  }

  /** What holds after the first n nodes. */
  ghost predicate Progress(results: seq<NodeResult>, n: nat, live: set<nat>, undone: UndoCalls,
                           rollbackOnFailure: bool)
    requires n <= |results|
  {
    && Honest(results, n, live)
    && (rollbackOnFailure ==> Undone(results, n))
    && undone == (if rollbackOnFailure then UndoRounds(results, n) else [])
    && (!rollbackOnFailure ==> forall k :: 0 <= k < |results| ==> !results[k].rolledBack)
  }

  lemma Passed(results: seq<NodeResult>, n: nat, live: set<nat>, undone: UndoCalls,
               rollbackOnFailure: bool)
    requires n < |results| && Progress(results, n, live, undone, rollbackOnFailure) && !results[n].validated
    ensures Progress(results, n + 1, live, undone, rollbackOnFailure)
  {
    assert UndoRounds(results, n + 1) == UndoRounds(results, n);
  }

  /** The body of the apply loop for a node that validated. */
  method ApplyNode(ex: Executor, nodes: seq<string>, before: seq<NodeResult>, i: nat, rollbackOnFailure: bool)
    returns (results: seq<NodeResult>)
    requires Through(ex, nodes, before, i, rollbackOnFailure) && i < |nodes| && before[i].validated
    modifies ex`applyCalls, ex`rollbackCalls, ex`live, ex`undone, ex`appliedTo, ex`undoneOn
    ensures Through(ex, nodes, results, i + 1, rollbackOnFailure)
  {
    AskedReports(before, ex, nodes, i, ex.undone);
    var r := ex.Apply(before[i].node, i);
    if r.Ok? {
      results := before[i := before[i].(applied := true, revisions := r.value)];
      AppliedProgress(before, results, i, old(ex.live), ex.undone, rollbackOnFailure);
      return;
    }
    results := before[i := before[i].(error := r.error)];
    FailedSoFar(before, results, i, ex.live, ex.undone, rollbackOnFailure);
    if rollbackOnFailure {
      ghost var failed, undone := results, ex.undone;
      results := RollbackEarlier(ex, nodes, results, i);
      RoundProgress(ex, nodes, failed, results, i, undone, ex.live, ex.undone);
    }
  }

  lemma AppliedProgress(before: seq<NodeResult>, results: seq<NodeResult>, i: nat, live: set<nat>, undone: UndoCalls,
                        rollbackOnFailure: bool)
    requires i < |before| && before[i].validated && Progress(before, i, live, undone, rollbackOnFailure)
    requires |results| == |before| && results == before[i := results[i]]
    requires results[i] == before[i].(applied := true, revisions := results[i].revisions)
    ensures Progress(results, i + 1, live + {i}, undone, rollbackOnFailure)
  {
    UndoUnchanged(before, results, i);
    assert !ApplyFailed(results[i]);
  }

  /** After a failed apply and before any rollback for it: without rollback that is all, and with it the
      earlier nodes are as they were. */
  lemma FailedSoFar(before: seq<NodeResult>, results: seq<NodeResult>, i: nat, live: set<nat>, undone: UndoCalls,
                    rollbackOnFailure: bool)
    requires i < |before| && before[i].validated && Progress(before, i, live, undone, rollbackOnFailure)
    requires |results| == |before| && results == before[i := before[i].(error := results[i].error)]
    ensures Honest(results, i, live) && (rollbackOnFailure ==> Undone(results, i) && undone == UndoRounds(results, i))
    ensures ApplyFailed(results[i]) && (!rollbackOnFailure ==> Progress(results, i + 1, live, undone, false))
  {
    UndoUnchanged(before, results, i);
  }

  lemma RoundProgress(ex: Executor, nodes: seq<string>, failed: seq<NodeResult>, results: seq<NodeResult>, i: nat,
                      start: UndoCalls, live: set<nat>, undone: UndoCalls)
    requires i < |failed| && ApplyFailed(failed[i]) && Undone(failed, i) && start == UndoRounds(failed, i)
    requires Round(ex, nodes, failed, results, i, i, start, live, undone)
    ensures Progress(results, i + 1, live, undone, true)
  {
    UndoUnchanged(failed, results, i);
    UndoneKept(failed, results, i);
  }

  lemma PassedReports(results: seq<NodeResult>, ex: Executor, nodes: seq<string>, i: nat, undone: UndoCalls)
    requires Reports(results, ex, nodes, i, undone) && i < |nodes| && !results[i].validated
    ensures Reports(results, ex, nodes, i + 1, undone) && ex.validates(i).Some?
  {
    NoCalls(ex.rollbacks, undone, i, Base(ex, nodes[i], i, i));
  }

  /** A node that validated turns into what its Apply call makes of it. */
  lemma AskedReports(before: seq<NodeResult>, ex: Executor, nodes: seq<string>, i: nat, undone: UndoCalls)
    requires Reports(before, ex, nodes, i, undone) && i < |nodes| && before[i].validated
    ensures ex.validates(i).None?
    ensures Reports(before[i := Base(ex, nodes[i], i, i + 1)], ex, nodes, i + 1, undone)
    ensures before[i] == Base(ex, nodes[i], i, i)
  {
    NoCalls(ex.rollbacks, undone, i, Base(ex, nodes[i], i, i));
    NoCalls(ex.rollbacks, undone, i, Base(ex, nodes[i], i, i + 1));
  }

  lemma UndoneKept(a: seq<NodeResult>, b: seq<NodeResult>, n: nat)
    requires SameButRollback(a, b) && n <= |a| && Undone(a, n)
    ensures Undone(b, n)
  {
  }

  method ValidateAll(ex: Executor, nodes: seq<string>) returns (results: seq<NodeResult>)
    requires ex.validateCalls == 0 && ex.asked == []
    modifies ex`validateCalls, ex`asked
    ensures |results| == |nodes|
    ensures forall i :: 0 <= i < |nodes| ==>
      && results[i] == Base(ex, nodes[i], i, 0)
      && results[i].node == nodes[i] && (results[i].validated <==> ex.validates(i).None?)
      && !results[i].applied && !results[i].rolledBack
    ensures ex.validateCalls == |nodes| && ex.asked == nodes
  {
    results := [];
    for i := 0 to |nodes|
      invariant ex.validateCalls == i && |results| == i && ex.asked == nodes[..i]
      invariant forall k :: 0 <= k < i ==>
        && results[k] == Base(ex, nodes[k], k, 0)
        && results[k].node == nodes[k] && (results[k].validated <==> ex.validates(k).None?)
        && !results[k].applied && !results[k].rolledBack
    {
      var error := ex.Validate(nodes[i]);
      var r := NodeResult(nodes[i], false, false, false, [], "");
      if error.Some? {
        results := results + [r.(error := error.value)];
        continue;
      }
      results := results + [r.(validated := true)];
    }
  }

  lemma NotedReports(last: seq<NodeResult>, ex: Executor, nodes: seq<string>, n: nat, undone: UndoCalls,
                     j: nat, revisions: seq<AppliedRevision>, results: seq<NodeResult>)
    requires Reports(last, ex, nodes, n, undone) && j < n && j < |last| && last[j].applied
    requires results == last[j := Noted(last[j], ex.rollbacks(|undone|))]
    ensures Reports(results, ex, nodes, n, undone + [(j, revisions)])
  {
    forall k | 0 <= k < |nodes|
      ensures results[k] == AfterUndo(ex.rollbacks, undone + [(j, revisions)], k, Base(ex, nodes[k], k, n))
    {
      AfterUndoSnoc(ex.rollbacks, undone, j, revisions, k, Base(ex, nodes[k], k, n));
    }
  }

  lemma NotedKeeps(before: seq<NodeResult>, results: seq<NodeResult>, n: nat, j: nat, error: Option<string>,
                   live: set<nat>, live': set<nat>)
    requires j < n <= |results| && results[j].applied && SameButRollback(before, results) && Honest(results, n, live)
    requires live' == if error.None? then live - {j} else live
    ensures var next := results[j := Noted(results[j], error)];
      && SameButRollback(before, next) && Honest(next, n, live')
      && (next[j].rolledBack || next[j].error != "")
  {
  }

  /** None of the first j applied nodes is silent. */
  ghost predicate Attempted(results: seq<NodeResult>, j: nat)
    requires j <= |results|
  {
    forall k :: 0 <= k < j && results[k].applied ==> results[k].rolledBack || results[k].error != ""
  }

  lemma AttemptedNext(last: seq<NodeResult>, j: nat, r: NodeResult)
    requires j < |last| && Attempted(last, j) && (r.rolledBack || r.error != "")
    ensures Attempted(last[j := r], j + 1)
  {
  }

  /** What holds of a rollback round after the first j nodes; start is what was undone before it. */
  ghost predicate Round(ex: Executor, nodes: seq<string>, before: seq<NodeResult>, results: seq<NodeResult>, n: nat, j: nat,
                        start: UndoCalls, live: set<nat>, undone: UndoCalls)
  {
    && j <= n < |results| && SameButRollback(before, results) && Honest(results, n, live)
    && Reports(results, ex, nodes, n + 1, undone)
    && Attempted(results, j)
    && undone == start + UndoBefore(results, j)
  }

  /** The inner loop: every applied node before position n, whether rolled back earlier or not. */
  method RollbackEarlier(ex: Executor, nodes: seq<string>, before: seq<NodeResult>, n: nat) returns (results: seq<NodeResult>)
    requires n < |before| && Honest(before, n, ex.live)
    requires Reports(before, ex, nodes, n + 1, ex.undone) && Counted(ex, nodes)
    modifies ex`rollbackCalls, ex`live, ex`undone, ex`undoneOn
    ensures Round(ex, nodes, before, results, n, n, old(ex.undone), ex.live, ex.undone) && Counted(ex, nodes)
  {
    results := before;
    for j := 0 to n
      invariant Round(ex, nodes, before, results, n, j, old(ex.undone), ex.live, ex.undone) && Counted(ex, nodes)
    {
      results := RollbackOne(ex, nodes, before, results, n, j, old(ex.undone));
    }
  }

  lemma UndoNext(start: UndoCalls, undone: UndoCalls, last: seq<NodeResult>, results: seq<NodeResult>, j: nat)
    requires j < |last| == |results| && last[j].applied && undone == start + UndoBefore(last, j)
    requires results == last[j := results[j]] && SameButRollback(last, results)
    ensures undone + [(j, last[j].revisions)] == start + UndoBefore(results, j + 1)
  {
    UndoUnchanged(last, results, j);
  }

  lemma NameKept(results: seq<NodeResult>, ex: Executor, nodes: seq<string>, n: nat, undone: UndoCalls, k: nat)
    requires Reports(results, ex, nodes, n, undone) && k < |nodes|
    ensures results[k].node == nodes[k]
  {
    AfterUndoMeans(ex.rollbacks, undone, k, Base(ex, nodes[k], k, n));
  }

  method CallRollback(ex: Executor, ghost nodes: seq<string>, r: NodeResult, ghost at: nat) returns (error: Option<string>)
    requires Counted(ex, nodes) && at < |nodes| && r.node == nodes[at]
    modifies ex`rollbackCalls, ex`live, ex`undone, ex`undoneOn
    ensures Counted(ex, nodes)
    ensures error == ex.rollbacks(|old(ex.undone)|) && ex.undone == old(ex.undone) + [(at, r.revisions)]
    ensures ex.live == if error.None? then old(ex.live) - {at} else old(ex.live)
  {
    error := ex.Rollback(r.node, at, r.revisions);
  }

  method RollbackOne(ex: Executor, nodes: seq<string>, ghost before: seq<NodeResult>, last: seq<NodeResult>,
                     ghost n: nat, j: nat, ghost start: UndoCalls)
    returns (results: seq<NodeResult>)
    requires j < n && Round(ex, nodes, before, last, n, j, start, ex.live, ex.undone) && Counted(ex, nodes)
    modifies ex`rollbackCalls, ex`live, ex`undone, ex`undoneOn
    ensures Round(ex, nodes, before, results, n, j + 1, start, ex.live, ex.undone) && Counted(ex, nodes)
  {
    if !last[j].applied { return last; }
    ghost var live, undone := ex.live, ex.undone;
    NameKept(last, ex, nodes, n + 1, undone, j);
    var error := CallRollback(ex, nodes, last[j], j);
    results := last[j := Noted(last[j], error)];
    RoundNext(ex, nodes, before, last, results, n, j, start, live, undone, error, ex.live, ex.undone);
  }

  lemma RoundNext(ex: Executor, nodes: seq<string>, before: seq<NodeResult>, last: seq<NodeResult>, results: seq<NodeResult>,
                  n: nat, j: nat, start: UndoCalls, live: set<nat>, undone: UndoCalls, error: Option<string>,
                  live': set<nat>, undone': UndoCalls)
    requires j < n && Round(ex, nodes, before, last, n, j, start, live, undone) && last[j].applied
    requires error == ex.rollbacks(|undone|) && results == last[j := Noted(last[j], error)]
    requires live' == (if error.None? then live - {j} else live) && undone' == undone + [(j, last[j].revisions)]
    ensures Round(ex, nodes, before, results, n, j + 1, start, live', undone')
  {
    NotedKeeps(before, last, n, j, error, live, live');
    AttemptedNext(last, j, results[j]);
    NotedReports(last, ex, nodes, n + 1, undone, j, last[j].revisions, results);
    UndoNext(start, undone, last, results, j);
  }

  lemma {:induction false} UndoUnchanged(a: seq<NodeResult>, b: seq<NodeResult>, n: nat)
    requires |a| == |b| && n <= |a|
    requires forall i :: 0 <= i < n ==>
      a[i].applied == b[i].applied && a[i].revisions == b[i].revisions && a[i].validated == b[i].validated
    ensures UndoBefore(a, n) == UndoBefore(b, n) && UndoRounds(a, n) == UndoRounds(b, n)
  {
    if n > 0 { UndoUnchanged(a, b, n - 1); }
  }

  method CountStanding(results: seq<NodeResult>) returns (successes: nat)
    ensures successes > 0 <==> exists i :: 0 <= i < |results| && Standing(results[i])
    ensures successes < |results| <==> exists i :: 0 <= i < |results| && !Standing(results[i])
    ensures successes <= |results|
  {
    successes := 0;
    for i := 0 to |results|
      invariant successes <= i
      invariant successes == 0 <==> forall k :: 0 <= k < i ==> !Standing(results[k])
      invariant successes == i <==> forall k :: 0 <= k < i ==> Standing(results[k])
    {
      if Standing(results[i]) { successes := successes + 1; }
    }
  }

  /** A node rolled back once is rolled back again for every later failure: its Rollback calls are as
      many as the failures after it. */
  ghost function CallsFor(undone: UndoCalls, at: nat): nat {
    if undone == [] then 0
    else CallsFor(undone[..|undone| - 1], at) + if undone[|undone| - 1].0 == at then 1 else 0
  }

  ghost function FailuresAfter(results: seq<NodeResult>, at: nat, n: nat): nat
    requires n <= |results|
  {
    if n == 0 then 0
    else FailuresAfter(results, at, n - 1) + if at < n - 1 && ApplyFailed(results[n - 1]) then 1 else 0
  }

  lemma {:induction false} CallsConcat(a: UndoCalls, b: UndoCalls, at: nat)
    ensures CallsFor(a + b, at) == CallsFor(a, at) + CallsFor(b, at)
  {
    if b == [] {
      assert a + b == a;
    } else {
      CallsConcat(a, b[..|b| - 1], at);
      assert (a + b)[..|a + b| - 1] == a + b[..|b| - 1];
    }
  }

  lemma {:induction false} RoundCalls(results: seq<NodeResult>, at: nat, n: nat)
    requires n <= |results| && at < |results| && results[at].applied
    ensures CallsFor(UndoBefore(results, n), at) == if at < n then 1 else 0
  {
    if n > 0 {
      RoundCalls(results, at, n - 1);
      var tail := if results[n - 1].applied then [(n - 1, results[n - 1].revisions)] else [];
      CallsConcat(UndoBefore(results, n - 1), tail, at);
    }
  }

  lemma {:induction false} RolledBackPerFailure(results: seq<NodeResult>, at: nat, n: nat)
    requires n <= |results| && at < |results| && results[at].applied
    ensures CallsFor(UndoRounds(results, n), at) == FailuresAfter(results, at, n)
  {
    if n > 0 {
      RolledBackPerFailure(results, at, n - 1);
      RoundCalls(results, at, n - 1);
      if ApplyFailed(results[n - 1]) {
        CallsConcat(UndoRounds(results, n - 1), UndoBefore(results, n - 1), at);
      } else {
        assert UndoRounds(results, n) == UndoRounds(results, n - 1);
      }
    }
  }
}
