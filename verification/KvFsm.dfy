/** The replicated key/value state machine (replication/kvfsm.go): what applying one committed
    entry does, as a function on state values. Class KVFSM performs it on fields in place. */
module KvFsm {
  import opened Wrappers
  import opened JsonText
  import opened Operations

  datatype Entry = Entry(index: nat, term: nat, data: LogData)

  datatype ApplyResult = ApplyResult(
    index: nat, term: nat, opId: string, objectId: string, kind: string, version: int, revision: int)

  datatype KvEntry = KvEntry(value: string, revision: int)

  datatype AppliedOp = AppliedOp(digest: Digest, result: ApplyResult)

  datatype Fsm = Fsm(
    product: string, state: map<string, KvEntry>, applied: map<string, AppliedOp>,
    appliedIndex: nat, appliedTerm: nat)

  const EMPTY_FSM := Fsm("", map[], map[], 0, 0)

  datatype Refusal = BadEntry | UnsupportedVersion | UnsupportedKind | BadPayload | DigestMismatch | StaleRevision

  datatype Outcome = Answer(result: ApplyResult) | Refused(reason: Refusal)

  const TWO_63 := 0x8000_0000_0000_0000
  const TWO_64 := 0x1_0000_0000_0000_0000

  /** An integer kept in an int64. */
  function ToInt64(n: int): (r: int)
    ensures -0x8000_0000_0000_0000 <= r < 0x8000_0000_0000_0000
    ensures (r - n) % 0x1_0000_0000_0000_0000 == 0
  {
    (n + TWO_63) % TWO_64 - TWO_63
  }

  /** The revision of a key, 0 when it is absent (Go's zero value of a missing map entry). */
  function CurrentRevision(state: map<string, KvEntry>, key: string): int {
    if key in state then state[key].revision else 0
  }

  /** How the machine judges an operation before touching anything. */
  datatype Verdict = Rejected(reason: Refusal) | Duplicate(prior: ApplyResult) | Fresh

  function Judge(f: Fsm, supported: int, op: Operation): Verdict {
    if op.version > supported then Rejected(UnsupportedVersion)
    else if !KnownKind(op.kind) then Rejected(UnsupportedKind)
    else if DigestOf(op).None? then Rejected(BadPayload)
    else if op.id in f.applied then
      if f.applied[op.id].digest != DigestOf(op).value then Rejected(DigestMismatch)
      else Duplicate(f.applied[op.id].result)
    else if op.kind == KIND_SET && ValueField(op.payload).None? then Rejected(BadPayload)
    else if op.revision != 0 && (op.objectId !in f.state || f.state[op.objectId].revision != op.revision) then
      Rejected(StaleRevision)
    else Fresh
  }

  function NextRevision(f: Fsm, op: Operation): int {
    ToInt64(CurrentRevision(f.state, op.objectId) + 1)
  }

  function Record(f: Fsm, op: Operation, index: nat, term: nat): ApplyResult {
    ApplyResult(index, term, op.id, op.objectId, op.kind, op.version, NextRevision(f, op))
  }

  /** The state after a fresh operation. */
  function Effect(f: Fsm, op: Operation, index: nat, term: nat): Fsm
    requires DigestOf(op).Some? && (op.kind == KIND_SET ==> ValueField(op.payload).Some?)
  {
    Fsm(
      if f.product == "" then op.product else f.product,
      if op.kind == KIND_SET
      then f.state[op.objectId := KvEntry(ValueField(op.payload).value, NextRevision(f, op))]
      else f.state - {op.objectId},
      f.applied[op.id := AppliedOp(DigestOf(op).value, Record(f, op, index, term))],
      index, term)
  }

  function ApplyOp(f: Fsm, supported: int, op: Operation, index: nat, term: nat): (Fsm, Outcome) {
    match Judge(f, supported, op)
    case Rejected(reason) => (f, Refused(reason))
    case Duplicate(prior) => (f, Answer(prior))
    case Fresh => (Effect(f, op, index, term), Answer(Record(f, op, index, term)))
  }

  /** raft.FSM's Apply. */
  function Apply(f: Fsm, supported: int, e: Entry): (Fsm, Outcome) {
    match Decode(e.data)
    case Err(_) => (f, Refused(BadEntry))
    case Ok(op) => ApplyOp(f, supported, op, e.index, e.term)
  }

  /** The version an entry needs, 0 for an entry no machine can decode. */
  function VersionOf(e: Entry): int {
    match Decode(e.data)
    case Err(_) => 0
    case Ok(op) => op.version
  }

  predicate IsFresh(f: Fsm, supported: int, e: Entry) {
    Decode(e.data).Ok? && Judge(f, supported, Decode(e.data).value) == Fresh
  }

  /** Two machines that both support an entry's version treat it alike, whatever their maxima. */
  lemma LevelIrrelevant(f: Fsm, low: int, high: int, e: Entry)
    requires VersionOf(e) <= low && VersionOf(e) <= high
    ensures Apply(f, low, e) == Apply(f, high, e)
    ensures IsFresh(f, low, e) == IsFresh(f, high, e)
  {
  }

  function ClampLevel(maxSchema: int): (level: int)
    ensures SupportedVersion(level)
    ensures SupportedVersion(maxSchema) ==> level == maxSchema
    ensures !SupportedVersion(maxSchema) ==> level == if maxSchema < 1 then 1 else 2
  {
    if maxSchema < 1 then 1 else if maxSchema > VERSION then VERSION else maxSchema
  }
}
