/** What the nodes of the cluster return: one record for each operation ID, read after forward, and the
    exact condition on a node for both. */
module ClusterAnswers {
  import opened Wrappers
  import opened JsonText
  import opened Operations
  import opened KvFsm
  import opened CommittedLog
  import opened NodePropose
  import opened ReplicatedCluster

  ghost predicate Answers(log: Log, r: ApplyResult) {
    exists p :: 0 <= p < |log| && Effective(log, p) && AnswerAt(log, p) == Answer(r)
  }

  /** A result of a machine that skipped nothing that takes effect is that of the straight replay. */
  ghost predicate Explained(log: Log, g: Given) {
    && (forall p :: p in g.skipped ==> p < |log|)
    && (Harmless(log, g.skipped) ==> Answers(log, g.result))
  }

  ghost predicate AnswersInv(c: Cluster) {
    forall g :: g in c.answers ==> Explained(c.log, g)
  }

  lemma ExplainedLonger(log: Log, e: Entry, g: Given)
    requires Explained(log, g)
    ensures Explained(log + [e], g)
  {
    HarmlessLonger(log, e, g.skipped);
    if Harmless(log, g.skipped) {
      var p :| 0 <= p < |log| && Effective(log, p) && AnswerAt(log, p) == Answer(g.result);
      PrefixAgrees(log, [e], p);
      assert Effective(log + [e], p) && AnswerAt(log + [e], p) == Answer(g.result);
    }
  }

  lemma ExplainedApply(c: Cluster, id: NodeId, r: ApplyResult)
    requires Inv(c) && id in c.nodes && c.nodes[id].pos < |c.log|
    requires var n := c.nodes[id]; Apply(n.fsm, n.level, c.log[n.pos]).1 == Answer(r)
    ensures Explained(c.log, Given(r, c.nodes[id].voter, c.nodes[id].skipped))
  {
    var n := c.nodes[id];
    assert Tracks(c.log, n.fsm, n.pos, n.skipped);
    if Harmless(c.log, n.skipped) {
      AppliedMeans(n, c.log[n.pos]);
      assert AnswerAt(c.log, n.pos) == Answer(r);
      var p := AnswerSource(c.log, n.pos);
    }
  }

  lemma AnswersStep(c: Cluster, ev: Event)
    requires Inv(c) && AnswersInv(c) && Enabled(c, ev)
    ensures AnswersInv(After(c, ev))
  {
    match ev {
      case Propose(leader, op, now, index, term) =>
        var proposed := Proposed(c, leader, op, now, index, term);
        if proposed.Some? {
          forall g | g in c.answers ensures Explained(c.log + [proposed.value], g) { ExplainedLonger(c.log, proposed.value, g); }
        }
      case Commit(entry) =>
        forall g | g in c.answers ensures Explained(c.log + [entry], g) { ExplainedLonger(c.log, entry, g); }
      case ApplyNext(id) =>
        var n := c.nodes[id];
        var outcome := Apply(n.fsm, n.level, c.log[n.pos]).1;
        if outcome.Answer? { ExplainedApply(c, id, outcome.result); }
      case _ =>
    }
  }

  lemma {:induction false} AnswersHold(cs: seq<Cluster>, evs: seq<Event>, i: nat)
    requires Run(cs, evs) && i < |cs|
    ensures AnswersInv(cs[i])
  {
    if i > 0 {
      AnswersHold(cs, evs, i - 1);
      InvHolds(cs, evs, i - 1);
      AnswersStep(cs[i - 1], evs[i - 1]);
    }
  }

  /** Every successful result ever returned for an operation ID, by any voter or learner that had
      skipped nothing that takes effect, at any time, across forwarded proposals, snapshots, installs
      and restarts, is one and the same record. */
  lemma OneRecordPerId(cs: seq<Cluster>, evs: seq<Event>, i: nat, g: Given, h: Given)
    requires Run(cs, evs) && i < |cs| && g in cs[i].answers && h in cs[i].answers
    requires Harmless(cs[i].log, g.skipped) && Harmless(cs[i].log, h.skipped)
    ensures g.result.opId == h.result.opId ==> g.result == h.result
  {
    AnswersHold(cs, evs, i);
    var log := cs[i].log;
    assert Explained(log, g) && Explained(log, h);
    var p :| 0 <= p < |log| && Effective(log, p) && AnswerAt(log, p) == Answer(g.result);
    var q :| 0 <= q < |log| && Effective(log, q) && AnswerAt(log, q) == Answer(h.result);
    if g.result.opId == h.result.opId { AnswersAgree(log, p, q); }
  }

  /** In a clean run that is so of all that voters return. */
  lemma {:induction false} VotersAnswerClean(cs: seq<Cluster>, evs: seq<Event>, i: nat)
    requires CleanRun(cs, evs) && i < |cs|
    ensures CleanAnswers(cs[i])
  {
    if i > 0 {
      VotersAnswerClean(cs, evs, i - 1);
      VotersStayClean(cs, evs, i - 1);
      AnswersHold(cs, evs, i - 1);
      StepOf(cs, evs, i - 1);
      CleanAnswersStep(cs[i - 1], evs[i - 1]);
    }
  }

  ghost predicate CleanAnswers(c: Cluster) {
    forall g :: g in c.answers && g.voter ==> Harmless(c.log, g.skipped)
  }

  lemma StepOf(cs: seq<Cluster>, evs: seq<Event>, i: nat)
    requires Run(cs, evs) && i < |evs|
    ensures Enabled(cs[i], evs[i]) && cs[i + 1] == After(cs[i], evs[i])
  {
  }

  lemma CleanAnswersStep(c: Cluster, ev: Event)
    requires AnswersInv(c) && VotersClean(c) && Enabled(c, ev) && CleanAnswers(c)
    ensures CleanAnswers(After(c, ev))
  {
    var next := After(c, ev);
    forall g | g in c.answers && g.voter ensures Harmless(next.log, g.skipped) {
      assert Explained(c.log, g);
      if next.log != c.log { HarmlessLonger(c.log, next.log[|c.log|], g.skipped); }
    }
  }

  lemma VotersOneRecord(cs: seq<Cluster>, evs: seq<Event>, i: nat, g: Given, h: Given)
    requires CleanRun(cs, evs) && i < |cs| && g in cs[i].answers && h in cs[i].answers && g.voter && h.voter
    ensures g.result.opId == h.result.opId ==> g.result == h.result
  {
    VotersAnswerClean(cs, evs, i);
    OneRecordPerId(cs, evs, i, g, h);
  }

  /** A machine at position pos and effective entry p: the wait test for p is true exactly when the
      machine has passed p, and exactly then it holds the operation ID with the answer p got. */
  ghost predicate ReadsAfter(log: Log, f: Fsm, pos: nat, p: nat)
    requires p < |log|
  {
    var answer := AnswerAt(log, p);
    && answer.Answer?
    && (f.appliedIndex >= log[p].index <==> p < pos)
    && (p < pos <==> answer.result.opId in f.applied && f.applied[answer.result.opId].result == answer.result)
  }

  /** Read after forward, exactly: it holds for every entry that takes effect if and only if the node
      skipped none of them. */
  lemma ReadAfterForwardExactly(cs: seq<Cluster>, evs: seq<Event>, i: nat, id: NodeId)
    requires Run(cs, evs) && i < |cs| && id in cs[i].nodes
    ensures var c, n := cs[i], cs[i].nodes[id];
      Harmless(c.log, n.skipped) <==>
        forall p :: 0 <= p < |c.log| && Effective(c.log, p) ==> ReadsAfter(c.log, n.fsm, n.pos, p)
  {
    InvHolds(cs, evs, i);
    var log, n := cs[i].log, cs[i].nodes[id];
    assert Tracks(log, n.fsm, n.pos, n.skipped);
    if Harmless(log, n.skipped) {
      forall p | 0 <= p < |log| && Effective(log, p) ensures ReadsAfter(log, n.fsm, n.pos, p) {
        ReadAfterForwardAt(log, n.pos, p);
      }
    } else {
      var p :| p in n.skipped && Effective(log, p) && Lacks(log, n.fsm, p);
      LackingDoesNotRead(log, n.fsm, n.pos, p);
    }
  }

  lemma LackingDoesNotRead(log: Log, f: Fsm, pos: nat, p: nat)
    requires p < pos <= |log| && Effective(log, p) && Lacks(log, f, p)
    ensures !ReadsAfter(log, f, pos, p)
  {
  }

  /** Read after forward, for a result: it was returned, forwarded or not, by any node that had skipped
      nothing that takes effect, and is awaited on any other such node. The test is true exactly when
      that node has passed the entry the result names, and exactly then it holds the ID with that
      result. */
  lemma ReadAfterForward(cs: seq<Cluster>, evs: seq<Event>, i: nat, g: Given, id: NodeId)
    requires Run(cs, evs) && i < |cs| && g in cs[i].answers && id in cs[i].nodes
    requires Harmless(cs[i].log, g.skipped) && Harmless(cs[i].log, cs[i].nodes[id].skipped)
    ensures var c, n, r := cs[i], cs[i].nodes[id], g.result;
      && (n.fsm.appliedIndex >= r.index <==> r.opId in n.fsm.applied && n.fsm.applied[r.opId].result == r)
      && (n.fsm.appliedIndex >= r.index <==> exists p :: 0 <= p < n.pos && p < |c.log| && c.log[p].index == r.index)
  {
    AnswersHold(cs, evs, i);
    InvHolds(cs, evs, i);
    var log, n := cs[i].log, cs[i].nodes[id];
    assert Explained(log, g) && Tracks(log, n.fsm, n.pos, n.skipped);
    var p :| 0 <= p < |log| && Effective(log, p) && AnswerAt(log, p) == Answer(g.result);
    ReadAfterForwardAt(log, n.pos, p);
    assert log[p].index == g.result.index;
  }

  /** The operation of p, sent again in its oldest form: version 1 and no precondition. */
  ghost function Resent(log: Log, p: nat, index: nat): (e: Entry)
    requires p < |log| && Effective(log, p)
    ensures VersionOf(e) == 1 && Decode(e.data).Ok?
  {
    var op := OpAt(log, p).(version := 1, revision := 0);
    assert Valid(OpAt(log, p)) && Valid(op);
    Entry(index, 0, Encoded(op))
  }

  /** The straight replay answers it with the record of p. */
  lemma ResentStraight(log: Log, p: nat, q: nat, index: nat)
    requires p < q <= |log| && Effective(log, p)
    ensures var outcome := Apply(Replay(log[..q]), VERSION, Resent(log, p, index)).1;
      outcome.Answer? && outcome.result.index == log[p].index
  {
    EffectiveRecorded(log, p, q);
    KnownDigest(log, p, q);
    RetryJudged(Replay(log[..q]), VERSION, Decode(Resent(log, p, index).data).value);
  }

  /** A machine that lacks that record does not. */
  lemma ResentLacking(log: Log, p: nat, index: nat, f: Fsm, level: int)
    requires p < |log| && Effective(log, p) && Lacks(log, f, p) && index != log[p].index && level >= 1
    ensures var outcome := Apply(f, level, Resent(log, p, index)).1;
      outcome.Answer? ==> outcome.result.index != log[p].index
  {
    RetryJudged(f, level, Decode(Resent(log, p, index).data).value);
  }

  lemma RetryDiffers(log: Log, n: Node, p: nat) returns (e: Entry)
    requires WellFormed(log) && SupportedVersion(n.level) && p < n.pos <= |log|
    requires Effective(log, p) && Lacks(log, n.fsm, p)
    ensures NextIndex(log[..n.pos], e.index) && VersionOf(e) <= n.level
    ensures Apply(n.fsm, n.level, e).1 != Apply(Replay(log[..n.pos]), VERSION, e).1
  {
    var index := log[n.pos - 1].index + 1;
    e := Resent(log, p, index);
    ResentStraight(log, p, n.pos, index);
    ResentLacking(log, p, index, n.fsm, n.level);
  }

  /** How a machine judges an operation with nothing against it but what is on record for its ID. */
  lemma RetryJudged(f: Fsm, level: int, op: Operation)
    requires op.version <= level && KnownKind(op.kind) && op.revision == 0 && DigestOf(op).Some?
    requires op.kind == KIND_SET ==> ValueField(op.payload).Some?
    ensures Judge(f, level, op) ==
      if op.id !in f.applied then Fresh
      else if f.applied[op.id].digest == DigestOf(op).value then Duplicate(f.applied[op.id].result)
      else Rejected(DigestMismatch)
  {
  }

  /** Answers, exactly: a node gives every further entry of a version it supports the answer that the
      straight replay gives it if and only if it skipped nothing that takes effect. */
  lemma AnswersStraightExactly(cs: seq<Cluster>, evs: seq<Event>, i: nat, id: NodeId)
    requires Run(cs, evs) && i < |cs| && id in cs[i].nodes
    ensures var log, n := cs[i].log, cs[i].nodes[id];
      && n.pos <= |log|
      && (Harmless(log, n.skipped) <==>
            forall e: Entry :: NextIndex(log[..n.pos], e.index) && VersionOf(e) <= n.level ==>
              Apply(n.fsm, n.level, e).1 == Apply(Replay(log[..n.pos]), VERSION, e).1)
  {
    InvHolds(cs, evs, i);
    var log, n := cs[i].log, cs[i].nodes[id];
    assert Tracks(log, n.fsm, n.pos, n.skipped);
    if Harmless(log, n.skipped) {
      forall e | VersionOf(e) <= n.level ensures Apply(n.fsm, n.level, e) == Apply(n.fsm, VERSION, e) {
        AppliedMeans(n, e);
      }
    } else {
      var p :| p in n.skipped && Effective(log, p) && Lacks(log, n.fsm, p);
      var e := RetryDiffers(log, n, p);
    }
  }

  /** The same operation in the log again: the machine that applied it answers with the first record,
      and the empty machine with a new one. */
  lemma RetriedAnswers(op: Operation, now: string, first: Entry, second: Entry)
    requires op.version == 2 && now != "" && Encode(op, now).Ok? && Judge(EMPTY_FSM, VERSION, op) == Fresh
    requires first == Entry(1, 1, Encode(op, now).value) && second == Entry(2, 1, Encode(op, now).value)
    ensures var f := Apply(EMPTY_FSM, 2, first).0;
      && Apply(f, 2, second).1 == Answer(Record(EMPTY_FSM, Decode(first.data).value, 1, 1))
      && Apply(EMPTY_FSM, 2, second).1 == Answer(Record(EMPTY_FSM, Decode(first.data).value, 2, 1))
      && Decode(first.data).value.id == op.id
  {
    EncodeDecode(op, now, now);
    var logged := Decode(first.data).value;
    assert Judge(EMPTY_FSM, 2, logged) == Fresh;
    var f := Effect(EMPTY_FSM, logged, 1, 1);
    assert Apply(EMPTY_FSM, 2, first).0 == f;
    assert Judge(f, 2, logged) == Duplicate(Record(EMPTY_FSM, logged, 1, 1));
  }

  lemma ProposeAgain(cs: seq<Cluster>, evs: seq<Event>, op: Operation, now: string, e: Entry, again: Entry, a: Node, b: Node)
    returns (cs': seq<Cluster>, evs': seq<Event>)
    requires GatedRun(cs, evs) && Pair(cs[|evs|], [e], a, b) && a.voter && b.voter && a.level == b.level == 2 == op.version
    requires PrecheckPasses(b.fsm, op) && Encode(op, now).Ok?
    requires e.index == 1 && again == Entry(2, 1, Encode(op, now).value)
    ensures GatedRun(cs', evs') && Pair(cs'[|evs'|], [e, again], a, b)
  {
    var ev := Propose("b", op, now, 2, 1);
    assert Proposed(cs[|evs|], "b", op, now, 2, 1) == Some(again);
    cs' := Extend(cs, evs, ev);
    evs' := evs + [ev];
  }

  lemma AnswerBoth(cs: seq<Cluster>, evs: seq<Event>, log: Log, a: Node, b: Node, r: ApplyResult, s: ApplyResult)
    returns (cs': seq<Cluster>, evs': seq<Event>, g: Given, h: Given)
    requires GatedRun(cs, evs) && Pair(cs[|evs|], log, a, b) && a.pos < |log| && b.pos < |log| && a.voter && b.voter
    requires Apply(a.fsm, a.level, log[a.pos]).1 == Answer(r) && Apply(b.fsm, b.level, log[b.pos]).1 == Answer(s)
    ensures GatedRun(cs', evs') && g in cs'[|evs'|].answers && h in cs'[|evs'|].answers
    ensures g == Given(r, true, a.skipped) && h == Given(s, true, b.skipped)
  {
    cs', evs', g := AnswerNext(cs, evs, "a", r);
    assert Pair(cs'[|evs'|], log, Applied(a, log[a.pos]), b);
    cs', evs', h := AnswerNext(cs', evs', "b", s);
  }

  /** A voter's answer goes on record, and no record is lost. */
  lemma AnswerNext(cs: seq<Cluster>, evs: seq<Event>, id: NodeId, r: ApplyResult)
    returns (cs': seq<Cluster>, evs': seq<Event>, g: Given)
    requires GatedRun(cs, evs) && Enabled(cs[|evs|], ApplyNext(id)) && cs[|evs|].nodes[id].voter
    requires var c := cs[|evs|]; Apply(c.nodes[id].fsm, c.nodes[id].level, c.log[c.nodes[id].pos]).1 == Answer(r)
    ensures GatedRun(cs', evs') && cs'[|evs'|] == After(cs[|evs|], ApplyNext(id))
    ensures g == Given(r, true, cs[|evs|].nodes[id].skipped) && cs'[|evs'|].answers == cs[|evs|].answers + {g}
  {
    g := Given(r, true, cs[|evs|].nodes[id].skipped);
    cs' := Extend(cs, evs, ApplyNext(id));
    evs' := evs + [ApplyNext(id)];
  }

  /** The condition on the answering node is needed. When the promoted voter of PromotedLearnerDiverges
      leads and is sent the operation again, it passes its own check and the gate, and the voter
      acknowledges it with a record that differs from the first. */
  lemma PromotedLearnerAnswersAnew(op: Operation, now: string) returns (cs: seq<Cluster>, evs: seq<Event>, g: Given, h: Given)
    requires op.version == 2 && now != "" && Encode(op, now).Ok? && Judge(EMPTY_FSM, VERSION, op) == Fresh
    ensures GatedRun(cs, evs) && g in cs[|evs|].answers && h in cs[|evs|].answers && g.voter && h.voter
    ensures g.result.opId == h.result.opId == op.id && g.result != h.result
  {
    var e, a, b;
    cs, evs, e, a, b := PromotedPair(op, now);
    var again := Entry(2, 1, e.data);
    RetriedAnswers(op, now, e, again);
    cs, evs := ProposeAgain(cs, evs, op, now, e, again, a, b);
    var logged := Decode(e.data).value;
    cs, evs, g, h := AnswerBoth(cs, evs, [e, again], a, b, Record(EMPTY_FSM, logged, 1, 1), Record(EMPTY_FSM, logged, 2, 1));
  }
}
