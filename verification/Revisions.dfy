/** The keyspace against a naive replay of the operations that took effect, with no idempotency
    table, no stored revisions and no refusals: the last write to a key wins. */
module Revisions {
  import opened Wrappers
  import opened JsonText
  import opened Operations
  import opened KvFsm
  import opened CommittedLog

  /** The operations that took effect, in log order. */
  function EffectiveOps(log: Log): seq<Operation> {
    if log == [] then []
    else if Effective(log, |log| - 1) then EffectiveOps(log[..|log| - 1]) + [OpAt(log, |log| - 1)]
    else EffectiveOps(log[..|log| - 1])
  }

  /** The value of a key: what the last operation on it wrote, nothing after a delete. */
  function NaiveValue(ops: seq<Operation>, key: string): Option<string> {
    if ops == [] then None
    else
      var last := ops[|ops| - 1];
      if last.objectId != key then NaiveValue(ops[..|ops| - 1], key)
      else if last.kind == KIND_SET then ValueField(last.payload)
      else None
  }

  /** How often a key was set since it was last deleted. */
  function SetsSinceDelete(ops: seq<Operation>, key: string): nat {
    if ops == [] then 0
    else
      var last := ops[|ops| - 1];
      if last.objectId != key then SetsSinceDelete(ops[..|ops| - 1], key)
      else if last.kind == KIND_SET then SetsSinceDelete(ops[..|ops| - 1], key) + 1
      else 0
  }

  lemma ToInt64Successor(n: int)
    ensures ToInt64(ToInt64(n) + 1) == ToInt64(n + 1)
  {
  }

  /** Key is in the keyspace as the naive replay of ops has it. */
  ghost predicate Matches(state: map<string, KvEntry>, ops: seq<Operation>, key: string) {
    && (key in state <==> NaiveValue(ops, key).Some?)
    && (key in state <==> SetsSinceDelete(ops, key) > 0)
    && (key in state ==> state[key] == KvEntry(NaiveValue(ops, key).value, ToInt64(SetsSinceDelete(ops, key))))
  }

  lemma EffectMatches(f: Fsm, ops: seq<Operation>, op: Operation, index: nat, term: nat, key: string)
    requires Judge(f, VERSION, op) == Fresh && Matches(f.state, ops, key)
    ensures Matches(Effect(f, op, index, term).state, ops + [op], key)
  {
    assert (ops + [op])[..|ops|] == ops;
    ToInt64Successor(SetsSinceDelete(ops, key));
  }

  /** The keyspace is the naive replay, and a live key's revision counts the sets on it since its
      last delete, in int64 arithmetic. */
  lemma {:induction false} KeyspaceIsNaiveReplay(log: Log, key: string)
    ensures key in Replay(log).state <==> NaiveValue(EffectiveOps(log), key).Some?
    ensures key in Replay(log).state <==> SetsSinceDelete(EffectiveOps(log), key) > 0
    ensures key in Replay(log).state ==>
      Replay(log).state[key]
      == KvEntry(NaiveValue(EffectiveOps(log), key).value, ToInt64(SetsSinceDelete(EffectiveOps(log), key)))
  {
    assert Matches(Replay(log).state, EffectiveOps(log), key) by { ReplayMatches(log, key); }
  }

  lemma {:induction false} ReplayMatches(log: Log, key: string)
    ensures Matches(Replay(log).state, EffectiveOps(log), key)
  {
    if log != [] {
      var init, e := log[..|log| - 1], log[|log| - 1];
      ReplayMatches(init, key);
      if Effective(log, |log| - 1) {
        EffectMatches(Replay(init), EffectiveOps(init), OpAt(log, |log| - 1), e.index, e.term, key);
      }
    }
  }

  /** Whether an entry takes effect, said without the machine: it decodes to a known kind with a
      readable payload, no earlier entry with its ID took effect, and its precondition, if it has
      one, names the number of sets since the last delete of a key that is live. */
  lemma EffectiveExactly(log: Log, p: nat)
    requires p < |log|
    ensures Effective(log, p) <==>
      && Decode(log[p].data).Ok?
      && var op, before := OpAt(log, p), EffectiveOps(log[..p]);
      && KnownKind(op.kind)
      && op.payload.Document?
      && (op.kind == KIND_SET ==> ValueField(op.payload).Some?)
      && !(exists i :: 0 <= i < p && Effective(log, i) && OpAt(log, i).id == op.id)
      && (op.revision != 0 ==>
            && NaiveValue(before, op.objectId).Some?
            && op.revision == ToInt64(SetsSinceDelete(before, op.objectId)))
  {
    if Decode(log[p].data).Ok? {
      var op, f := OpAt(log, p), Replay(log[..p]);
      KeyspaceIsNaiveReplay(log[..p], op.objectId);
      if op.id in f.applied {
        var i := RecordHasSource(log, p, op.id);
      }
      forall i | 0 <= i < p && Effective(log, i) && OpAt(log, i).id == op.id ensures op.id in f.applied {
        EffectiveRecorded(log, i, p);
      }
    }
  }

  /** The revision of a key after one more write, in int64 arithmetic. */
  function RevisionAfter(ops: seq<Operation>, key: string): int { ToInt64(SetsSinceDelete(ops, key) + 1) }

  /** The answer to every entry, said without the machine. In this order: an entry that does not decode,
      has an unknown kind or no readable payload is refused; an ID that took effect before is answered
      as it was then, or refused when the payload is another; a set without a readable value and a
      precondition that does not hold are refused; and any other entry takes effect. */
  lemma AnswerExactly(log: Log, q: nat)
    requires q < |log|
    ensures Decode(log[q].data).Err? ==> AnswerAt(log, q) == Refused(BadEntry)
    ensures Decode(log[q].data).Ok? ==>
      var op, before, answer := OpAt(log, q), EffectiveOps(log[..q]), AnswerAt(log, q);
      if !KnownKind(op.kind) then answer == Refused(UnsupportedKind)
      else if !op.payload.Document? then answer == Refused(BadPayload)
      else if exists p :: 0 <= p < q && Effective(log, p) && OpAt(log, p).id == op.id then
        forall p :: 0 <= p < q && Effective(log, p) && OpAt(log, p).id == op.id ==>
          answer == if OpAt(log, p).payload.value == op.payload.value then AnswerAt(log, p) else Refused(DigestMismatch)
      else if op.kind == KIND_SET && ValueField(op.payload).None? then answer == Refused(BadPayload)
      else if op.revision != 0
        && (NaiveValue(before, op.objectId).None? || op.revision != ToInt64(SetsSinceDelete(before, op.objectId)))
        then answer == Refused(StaleRevision)
      else answer == Answer(ApplyResult(
        log[q].index, log[q].term, op.id, op.objectId, op.kind, op.version, RevisionAfter(before, op.objectId)))
  {
    if Decode(log[q].data).Ok? && KnownKind(OpAt(log, q).kind) && OpAt(log, q).payload.Document? {
      RepeatAnswer(log, q);
      if OpAt(log, q).id !in Replay(log[..q]).applied { FreshAnswer(log, q); }
    }
  }

  lemma RepeatAnswer(log: Log, q: nat)
    requires q < |log| && Decode(log[q].data).Ok?
    requires KnownKind(OpAt(log, q).kind) && OpAt(log, q).payload.Document?
    ensures var op := OpAt(log, q);
      && (op.id in Replay(log[..q]).applied <==> exists p :: 0 <= p < q && Effective(log, p) && OpAt(log, p).id == op.id)
      && (forall p :: 0 <= p < q && Effective(log, p) && OpAt(log, p).id == op.id ==>
            AnswerAt(log, q) ==
              if OpAt(log, p).payload.value == op.payload.value then AnswerAt(log, p) else Refused(DigestMismatch))
  {
    var op, f := OpAt(log, q), Replay(log[..q]);
    if op.id in f.applied {
      var p := RecordHasSource(log, q, op.id);
    }
    forall p | 0 <= p < q && Effective(log, p) && OpAt(log, p).id == op.id
      ensures op.id in f.applied
      ensures AnswerAt(log, q) ==
        if OpAt(log, p).payload.value == op.payload.value then AnswerAt(log, p) else Refused(DigestMismatch)
    {
      EffectiveRecorded(log, p, q);
      RetryAnswered(log, p, q);
    }
  }

  lemma FreshAnswer(log: Log, q: nat)
    requires q < |log| && Decode(log[q].data).Ok? && OpAt(log, q).id !in Replay(log[..q]).applied
    requires KnownKind(OpAt(log, q).kind) && OpAt(log, q).payload.Document?
    ensures
      var op, before, answer := OpAt(log, q), EffectiveOps(log[..q]), AnswerAt(log, q);
      if op.kind == KIND_SET && ValueField(op.payload).None? then answer == Refused(BadPayload)
      else if op.revision != 0
        && (NaiveValue(before, op.objectId).None? || op.revision != ToInt64(SetsSinceDelete(before, op.objectId)))
        then answer == Refused(StaleRevision)
      else answer == Answer(ApplyResult(
        log[q].index, log[q].term, op.id, op.objectId, op.kind, op.version, RevisionAfter(before, op.objectId)))
  {
    var op := OpAt(log, q);
    KeyspaceIsNaiveReplay(log[..q], op.objectId);
    ToInt64Successor(SetsSinceDelete(EffectiveOps(log[..q]), op.objectId));
  }
}
