/** The state machine as it runs: fields updated in place under a lock, every call one atomic step. */
module KvFsmClass {
  import opened Wrappers
  import opened JsonText
  import opened Operations
  import opened KvFsm
  import opened Snapshots
  import opened CommittedLog

  class KVFSM {
    var supported: int
    var product: string
    var state: map<string, KvEntry>
    var applied: map<string, AppliedOp>
    var appliedIndex: nat
    var appliedTerm: nat

    ghost predicate Valid() reads this { SupportedVersion(supported) }

    function View(): Fsm reads this { Fsm(product, state, applied, appliedIndex, appliedTerm) }

    constructor (maxSchema: int)
      ensures Valid() && View() == EMPTY_FSM && supported == ClampLevel(maxSchema)
    {
      supported := if maxSchema < 1 then 1 else if maxSchema > VERSION then VERSION else maxSchema;
      product, state, applied, appliedIndex, appliedTerm := "", map[], map[], 0, 0;
    }

    method SetSupported(maxSchema: int)
      modifies this`supported
      ensures Valid() && supported == ClampLevel(maxSchema)
    {
      var level := maxSchema;
      if level < 1 { level := 1; }
      if level > VERSION { level := VERSION; }
      supported := level;
    }

    method ApplyEntry(e: Entry) returns (outcome: Outcome)
      requires Valid()
      modifies this
      ensures Valid() && supported == old(supported)
      ensures (View(), outcome) == KvFsm.Apply(old(View()), supported, e)
    {
      var decoded := Decode(e.data);
      if decoded.Err? { return Refused(BadEntry); }
      outcome := ApplyLocked(decoded.value, e.index, e.term);
    }

    method ApplyLocked(op: Operation, index: nat, term: nat) returns (outcome: Outcome)
      requires Valid()
      modifies this
      ensures Valid() && supported == old(supported)
      ensures (View(), outcome) == ApplyOp(old(View()), supported, op, index, term)
    {
      if op.version > supported { return Refused(UnsupportedVersion); }
      if !KnownKind(op.kind) { return Refused(UnsupportedKind); }
      var digest := DigestOf(op);
      if digest.None? { return Refused(BadPayload); }
      if op.id in applied {
        var prior := applied[op.id];
        if prior.digest != digest.value { return Refused(DigestMismatch); }
        return Answer(prior.result);
      }
      var newRev;
      if op.kind == KIND_SET {
        var value := ValueField(op.payload);
        if value.None? { return Refused(BadPayload); }
        var current := CurrentRevision(state, op.objectId);
        if op.revision != 0 {
          if op.objectId !in state || current != op.revision { return Refused(StaleRevision); }
        }
        newRev := ToInt64(current + 1);
        state := state[op.objectId := KvEntry(value.value, newRev)];
      } else {
        var current := CurrentRevision(state, op.objectId);
        if op.revision != 0 && (op.objectId !in state || current != op.revision) { return Refused(StaleRevision); }
        newRev := ToInt64(current + 1);
        state := state - {op.objectId};
      }
      var result := ApplyResult(index, term, op.id, op.objectId, op.kind, op.version, newRev);
      applied := applied[op.id := AppliedOp(digest.value, result)];
      if product == "" { product := op.product; }
      appliedIndex, appliedTerm := index, term;
      return Answer(result);
    }

    /** A machine that is the replay of a log knows an ID exactly when an effective entry of that log had
        it, by the digest of that entry's payload; and whatever an ID is known by is on record. */
    method OpKnown(id: string) returns (digest: Option<Digest>)
      ensures forall log :: View() == Replay(log) ==> Knows(log, id, digest)
      ensures digest.Some? <==> id in applied
      ensures digest.Some? ==> applied[id].digest == digest.value
    {
      digest := if id in applied then Some(applied[id].digest) else None;
      forall log | View() == Replay(log) ensures Knows(log, id, digest) { KnownExactly(log, id); }
    }

    method Snapshot() returns (bytes: Result<SnapshotBytes, SnapshotError>)
      requires Valid()
      ensures bytes.Ok? && bytes == Take(View(), supported)
    {
      bytes := EncodeSnapshot(Content(SNAPSHOT_FORMAT_VERSION, supported, View()));
    }

    /** Restore is all or nothing: a refused snapshot leaves every field as it was. */
    method Restore(bytes: SnapshotBytes) returns (error: Option<SnapshotError>)
      requires Valid()
      modifies this
      ensures Valid() && supported == old(supported)
      ensures error == (match Accept(bytes, supported) case Err(e) => Some(e) case Ok(_) => None)
      ensures View() == if error.None? then Accept(bytes, supported).value else old(View())
    {
      var decoded := DecodeSnapshot(bytes);
      if decoded.Err? { return Some(decoded.error); }
      var env := decoded.value;
      if env.formatVersion != SNAPSHOT_FORMAT_VERSION { return Some(BadFormat); }
      if !SupportedVersion(env.replicationVersion) { return Some(BadReplicationVersion); }
      if env.replicationVersion > supported { return Some(NewerThanSupported); }
      product, state, applied := env.fsm.product, env.fsm.state, env.fsm.applied;
      appliedIndex, appliedTerm := env.fsm.appliedIndex, env.fsm.appliedTerm;
      return None;
    }
  }
}
