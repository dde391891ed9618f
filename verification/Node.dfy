/** Proposing an operation: the idempotency pre-check and the rolling-schema gate (replication/node.go). */
module NodePropose {
  import opened Wrappers
  import opened JsonText
  import opened Operations
  import opened KvFsm

  type NodeId = string

  datatype Server = Server(id: NodeId, voter: bool)

  datatype Capabilities = Capabilities(operationVersions: seq<int>)

  predicate SupportsOperation(c: Capabilities, v: int) { v in c.operationVersions }

  /** The versions 1..level that a node advertises. */
  function Versions(level: nat): (vs: seq<int>)
    ensures forall v :: v in vs <==> 1 <= v <= level
  {
    if level == 0 then [] else Versions(level - 1) + [level]
  }

  /** Every voter of the configuration advertises v; one whose capabilities are unknown does not, and a
      learner has no say. */
  predicate VotersSupport(configuration: seq<Server>, known: map<NodeId, Capabilities>, v: int) {
    forall s :: s in configuration && s.voter ==> s.id in known && SupportsOperation(known[s.id], v)
  }

  /** The leader may propose version v exactly when it advertises v itself and, unless it has no source
      of capabilities to ask, it can read the configuration and every voter in it advertises v. */
  method RequireVoterSchemaSupport(own: Capabilities, configuration: Option<seq<Server>>,
                                   source: Option<map<NodeId, Capabilities>>, v: int)
    returns (ok: bool)
    ensures ok <==>
      && SupportsOperation(own, v)
      && (source.Some? ==> configuration.Some? && VotersSupport(configuration.value, source.value, v))
  {
    if !SupportsOperation(own, v) { return false; }
    if source.None? { return true; }
    if configuration.None? { return false; }
    var servers, known := configuration.value, source.value;
    for i := 0 to |servers|
      invariant forall k :: 0 <= k < i && servers[k].voter ==> servers[k].id in known && SupportsOperation(known[servers[k].id], v)
    {
      var s := servers[i];
      if !s.voter { continue; }
      if s.id !in known { return false; }
      if !SupportsOperation(known[s.id], v) { return false; }
    }
    return true;
  }

  /** Propose's first check: an ID that is known must come with the payload it was applied with. */
  predicate PrecheckPasses(f: Fsm, op: Operation) {
    op.id in f.applied ==> DigestOf(op) == Some(f.applied[op.id].digest)
  }

  /** The check before proposing foretells the machine: what it refuses would have been refused at
      apply as the same ID with another payload, and nothing it lets through is refused for that. */
  lemma PrecheckForetellsApply(f: Fsm, op: Operation, now: string, index: nat, term: nat)
    requires Encode(op, now).Ok? && KnownKind(op.kind)
    ensures PrecheckPasses(f, op) <==>
      Apply(f, VERSION, Entry(index, term, Encode(op, now).value)).1 != Refused(DigestMismatch)
  {
  }
}
