/** What a committed log means: its straight replay, and which of its entries take effect. */
module CommittedLog {
  import opened Wrappers
  import opened JsonText
  import opened Operations
  import opened KvFsm

  type Log = seq<Entry>

  /** Raft hands out each index once, in increasing order, starting above 0. */
  ghost predicate WellFormed(log: Log) {
    && (forall p :: 0 <= p < |log| ==> log[p].index > 0)
    && (forall p, q :: 0 <= p < q < |log| ==> log[p].index < log[q].index)
  }

  /** Apply every entry in order, from the empty machine, refusing no version of this build. */
  function Replay(log: Log): Fsm {
    if log == [] then EMPTY_FSM
    else Apply(Replay(log[..|log| - 1]), VERSION, log[|log| - 1]).0
  }

  /** Entry p changes the machine when the log is replayed up to it. */
  predicate Effective(log: Log, p: nat)
    requires p < |log|
  {
    IsFresh(Replay(log[..p]), VERSION, log[p])
  }

  function OpAt(log: Log, p: nat): Operation
    requires p < |log| && Decode(log[p].data).Ok?
  {
    Decode(log[p].data).value
  }

  /** The answer entry p gets, in a straight replay. */
  function AnswerAt(log: Log, p: nat): Outcome
    requires p < |log|
  {
    Apply(Replay(log[..p]), VERSION, log[p]).1
  }

  lemma ReplayStep(log: Log, p: nat)
    requires p < |log|
    ensures Replay(log[..p + 1]) == Apply(Replay(log[..p]), VERSION, log[p]).0
    ensures !Effective(log, p) ==> Replay(log[..p + 1]) == Replay(log[..p])
  {
    assert log[..p + 1][..p] == log[..p];
  }

  lemma PrefixAgrees(log: Log, more: Log, p: nat)
    requires p < |log|
    ensures (log + more)[..p] == log[..p] && (log + more)[p] == log[p]
    ensures Effective(log + more, p) == Effective(log, p)
  {
    assert (log + more)[..p] == log[..p];
  }

  /** The idempotency table only grows, and no entry in it is ever rewritten. */
  lemma {:induction false} TableGrows(log: Log, p: nat, q: nat, id: string)
    requires p <= q <= |log| && id in Replay(log[..p]).applied
    ensures id in Replay(log[..q]).applied
    ensures Replay(log[..q]).applied[id] == Replay(log[..p]).applied[id]
  {
    if p < q {
      TableGrows(log, p, q - 1, id);
      KeptRecord(log, q - 1, id);
    }
  }

  /** An effective entry leaves its own record in the table, for good. */
  lemma EffectiveRecorded(log: Log, p: nat, q: nat)
    requires p < q <= |log| && Effective(log, p)
    ensures var op := OpAt(log, p);
      && op.id in Replay(log[..q]).applied
      && AnswerAt(log, p) == Answer(Replay(log[..q]).applied[op.id].result)
      && Replay(log[..q]).applied[op.id].result.index == log[p].index
  {
    ReplayStep(log, p);
    TableGrows(log, p + 1, q, OpAt(log, p).id);
  }

  /** One entry adds at most its own record, and only by taking effect. */
  lemma NewRecord(log: Log, p: nat, id: string)
    requires p < |log| && id in Replay(log[..p + 1]).applied && id !in Replay(log[..p]).applied
    ensures Effective(log, p) && OpAt(log, p).id == id
    ensures AnswerAt(log, p) == Answer(Replay(log[..p + 1]).applied[id].result)
    ensures Replay(log[..p + 1]).applied[id].result.index == log[p].index
    ensures Replay(log[..p + 1]).applied[id].result.opId == id
  {
    ReplayStep(log, p);
  }

  lemma KeptRecord(log: Log, p: nat, id: string)
    requires p < |log| && id in Replay(log[..p]).applied
    ensures id in Replay(log[..p + 1]).applied
    ensures Replay(log[..p + 1]).applied[id] == Replay(log[..p]).applied[id]
  {
    ReplayStep(log, p);
  }

  /** Every record in the table was left by one effective entry. */
  lemma {:induction false} RecordHasSource(log: Log, q: nat, id: string) returns (p: nat)
    requires q <= |log| && id in Replay(log[..q]).applied
    ensures p < q && Effective(log, p) && OpAt(log, p).id == id
    ensures AnswerAt(log, p) == Answer(Replay(log[..q]).applied[id].result)
    ensures Replay(log[..q]).applied[id].result.index == log[p].index
    ensures Replay(log[..q]).applied[id].result.opId == id
    decreases q
  {
    if id in Replay(log[..q - 1]).applied {
      KeptRecord(log, q - 1, id);
      p := RecordHasSource(log, q - 1, id);
    } else {
      NewRecord(log, q - 1, id);
      p := q - 1;
    }
  }

  /** What a log makes known of an ID: something exactly when an effective entry had it, and then the
      digest of that entry's payload. */
  ghost predicate Knows(log: Log, id: string, digest: Option<Digest>) {
    && (digest.Some? <==> exists p :: 0 <= p < |log| && Effective(log, p) && OpAt(log, p).id == id)
    && (forall p :: 0 <= p < |log| && Effective(log, p) && OpAt(log, p).id == id ==> digest == DigestOf(OpAt(log, p)))
  }

  lemma KnownExactly(log: Log, id: string)
    ensures var f := Replay(log);
      Knows(log, id, if id in f.applied then Some(f.applied[id].digest) else None)
  {
    assert log[..|log|] == log;
    if id in Replay(log).applied { var p := RecordHasSource(log, |log|, id); }
    forall p | 0 <= p < |log| && Effective(log, p) && OpAt(log, p).id == id
      ensures id in Replay(log).applied && Some(Replay(log).applied[id].digest) == DigestOf(OpAt(log, p))
    {
      ReplayStep(log, p);
      TableGrows(log, p + 1, |log|, id);
    }
  }

  lemma KnownDigest(log: Log, p: nat, q: nat)
    requires p < q <= |log| && Effective(log, p)
    ensures var id := OpAt(log, p).id;
      id in Replay(log[..q]).applied && Some(Replay(log[..q]).applied[id].digest) == DigestOf(OpAt(log, p))
  {
    ReplayStep(log, p);
    TableGrows(log, p + 1, q, OpAt(log, p).id);
  }

  /** Exactly once: two different entries with one operation ID never both take effect. */
  lemma ExactlyOnce(log: Log, p: nat, q: nat)
    requires p < q < |log| && Effective(log, p) && Effective(log, q)
    ensures OpAt(log, p).id != OpAt(log, q).id
  {
    EffectiveRecorded(log, p, q);
  }

  /** One record per ID: however often an ID is in the log, every successful answer to it is the
      record its one effective entry left, naming that entry's index. */
  lemma AnswersAgree(log: Log, p: nat, q: nat)
    requires p < |log| && q < |log|
    requires AnswerAt(log, p).Answer? && AnswerAt(log, q).Answer?
    requires AnswerAt(log, p).result.opId == AnswerAt(log, q).result.opId
    ensures AnswerAt(log, p) == AnswerAt(log, q)
  {
    var i := AnswerSource(log, p);
    var j := AnswerSource(log, q);
    if i < j { ExactlyOnce(log, i, j); }
    if j < i { ExactlyOnce(log, j, i); }
  }

  lemma AnswerSource(log: Log, p: nat) returns (i: nat)
    requires p < |log| && AnswerAt(log, p).Answer?
    ensures i <= p && Effective(log, i) && AnswerAt(log, i) == AnswerAt(log, p)
    ensures OpAt(log, i).id == OpAt(log, p).id == AnswerAt(log, p).result.opId
    ensures AnswerAt(log, p).result.index == log[i].index
  {
    if Effective(log, p) {
      i := p;
    } else {
      i := RecordHasSource(log, p, OpAt(log, p).id);
    }
  }

  /** The entries of the log that take effect, in order. */
  function Kept(log: Log): Log {
    if log == [] then []
    else if Effective(log, |log| - 1) then Kept(log[..|log| - 1]) + [log[|log| - 1]]
    else Kept(log[..|log| - 1])
  }

  /** Rejected and duplicate entries can be deleted: what is left replays to the same machine, and
      holds as many entries as the idempotency table. */
  lemma {:induction false} ReplayKept(log: Log)
    ensures Replay(Kept(log)) == Replay(log)
    ensures |Kept(log)| == |Replay(log).applied|
    ensures Kept(Kept(log)) == Kept(log)
  {
    if log != [] {
      var init, last := log[..|log| - 1], log[|log| - 1];
      ReplayKept(init);
      if Effective(log, |log| - 1) {
        assert Kept(log)[..|Kept(log)| - 1] == Kept(init);
      }
    }
  }

  lemma PositionStep(log: Log, q: nat)
    requires q < |log|
    ensures Replay(log[..q + 1]).appliedIndex ==
      if Effective(log, q) then log[q].index else Replay(log[..q]).appliedIndex
  {
    ReplayStep(log, q);
  }

  /** The applied position is the index of an effective entry, unless nothing took effect yet. */
  lemma {:induction false} PositionSource(log: Log, q: nat) returns (p: nat)
    requires q <= |log| && Replay(log[..q]).appliedIndex != 0
    ensures p < q && Effective(log, p) && log[p].index == Replay(log[..q]).appliedIndex
    decreases q
  {
    PositionStep(log, q - 1);
    if Effective(log, q - 1) {
      p := q - 1;
    } else {
      p := PositionSource(log, q - 1);
    }
  }

  lemma PositionGrows(log: Log, q: nat)
    requires WellFormed(log) && q < |log|
    ensures Replay(log[..q]).appliedIndex <= Replay(log[..q + 1]).appliedIndex
  {
    PositionStep(log, q);
    if Replay(log[..q]).appliedIndex != 0 {
      var p := PositionSource(log, q);
      assert log[p].index < log[q].index;
    }
  }

  lemma {:induction false} PositionMonotone(log: Log, p: nat, q: nat)
    requires WellFormed(log) && p <= q <= |log|
    ensures Replay(log[..p]).appliedIndex <= Replay(log[..q]).appliedIndex
  {
    if p < q {
      PositionMonotone(log, p, q - 1);
      PositionGrows(log, q - 1);
    }
  }

  /** The applied position is at or past every effective entry replayed so far. */
  lemma PositionCovers(log: Log, q: nat, p: nat)
    requires WellFormed(log) && p < q <= |log| && Effective(log, p)
    ensures log[p].index <= Replay(log[..q]).appliedIndex
  {
    PositionStep(log, p);
    PositionMonotone(log, p + 1, q);
  }

  /** Read after forward, on a machine that has replayed q entries: the applied position has passed
      an effective entry exactly when that entry is among the q, and exactly then the machine
      holds its operation ID with the answer the entry got. */
  lemma ReadAfterForwardAt(log: Log, q: nat, p: nat)
    requires WellFormed(log) && q <= |log| && p < |log| && Effective(log, p)
    ensures var f, r := Replay(log[..q]), AnswerAt(log, p).result;
      && (f.appliedIndex >= r.index <==> p < q)
      && (p < q <==> r.opId in f.applied && f.applied[r.opId].result == r)
  {
    var f, r := Replay(log[..q]), AnswerAt(log, p).result;
    if p < q {
      EffectiveRecorded(log, p, q);
      PositionCovers(log, q, p);
    }
    if f.appliedIndex >= r.index { var i := PositionSource(log, q); }
    if r.opId in f.applied { var i := RecordHasSource(log, q, r.opId); }
  }

  /** A retry is answered: an entry with the ID and the payload of an earlier entry that took effect gets
      that entry's answer, whatever its precondition says by now; with another payload it is refused. */
  lemma RetryAnswered(log: Log, p: nat, q: nat)
    requires p < q < |log| && Effective(log, p) && Decode(log[q].data).Ok?
    requires KnownKind(OpAt(log, q).kind) && OpAt(log, q).id == OpAt(log, p).id && OpAt(log, q).payload.Document?
    ensures AnswerAt(log, q) ==
      if OpAt(log, q).payload.value == OpAt(log, p).payload.value then AnswerAt(log, p) else Refused(DigestMismatch)
  {
    EffectiveRecorded(log, p, q);
    KnownDigest(log, p, q);
    SameDigest(OpAt(log, p), OpAt(log, q));
  }

  /** The machine's product is that of the first entry that took effect, its position that of the last. */
  lemma {:induction false} FirstAndLast(log: Log, first: nat, last: nat)
    requires first <= last < |log| && Effective(log, first) && Effective(log, last)
    requires forall p :: 0 <= p < first || last < p < |log| ==> !Effective(log, p)
    ensures Replay(log[..first]) == EMPTY_FSM
    ensures Replay(log).product == OpAt(log, first).product
    ensures Replay(log).appliedIndex == log[last].index && Replay(log).appliedTerm == log[last].term
  {
    assert log[..|log|] == log && log[..0] == [];
    Idle(log, 0, first);
    FirstStep(log, first);
    ProductStays(log, first + 1, |log|);
    LastStep(log, last);
    Idle(log, last + 1, |log|);
  }

  lemma FirstStep(log: Log, p: nat)
    requires p < |log| && Effective(log, p) && Replay(log[..p]) == EMPTY_FSM
    ensures Replay(log[..p + 1]).product == OpAt(log, p).product
  {
    ReplayStep(log, p);
  }

  lemma LastStep(log: Log, p: nat)
    requires p < |log| && Effective(log, p)
    ensures Replay(log[..p + 1]).appliedIndex == log[p].index && Replay(log[..p + 1]).appliedTerm == log[p].term
  {
    ReplayStep(log, p);
  }

  lemma {:induction false} Idle(log: Log, p: nat, q: nat)
    requires p <= q <= |log| && forall i :: p <= i < q ==> !Effective(log, i)
    ensures Replay(log[..q]) == Replay(log[..p])
  {
    if p < q {
      Idle(log, p, q - 1);
      ReplayStep(log, q - 1);
    }
  }

  lemma {:induction false} ProductStays(log: Log, p: nat, q: nat)
    requires p <= q <= |log| && Replay(log[..p]).product != ""
    ensures Replay(log[..q]).product == Replay(log[..p]).product
  {
    if p < q {
      ProductStays(log, p, q - 1);
      ReplayStep(log, q - 1);
    }
  }
}
