/** The cluster as a step system over one committed log. Raft is taken as given: it hands every node
    the same log. Each event below is one atomic call. A node's log position is kept apart from the
    position its machine reports. */
module ReplicatedCluster {
  import opened Wrappers
  import opened Operations
  import opened KvFsm
  import opened Snapshots
  import opened CommittedLog
  import opened NodePropose

  /** skipped is history: the positions at which this machine, or the machine its installed snapshot
      was taken of, refused an entry for its version since it was last empty. */
  datatype Node = Node(fsm: Fsm, pos: nat, level: int, voter: bool, skipped: set<nat>)

  datatype Snap = Snap(bytes: SnapshotBytes, pos: nat, skipped: set<nat>)

  /** A successful result, whether a voter returned it, and what its machine had skipped by then. */
  datatype Given = Given(result: ApplyResult, voter: bool, skipped: set<nat>)

  /** answers is history: every successful result any node ever returned. */
  datatype Cluster = Cluster(log: Log, nodes: map<NodeId, Node>, snaps: set<Snap>, answers: set<Given>)

  datatype Event =
    | Propose(leader: NodeId, op: Operation, now: string, index: nat, term: nat)
    | Commit(entry: Entry)
    | ApplyNext(id: NodeId)
    | TakeSnapshot(id: NodeId)
    | Install(id: NodeId, snap: Snap)
    | Restart(id: NodeId)
    | SetLevel(id: NodeId, maxSchema: int)
    | Join(id: NodeId, maxSchema: int)
    | SetVoter(id: NodeId, voter: bool)

  predicate NextIndex(log: Log, index: nat) {
    index > 0 && (log != [] ==> index > log[|log| - 1].index)
  }

  predicate Enabled(c: Cluster, ev: Event) {
    match ev
    case Propose(leader, _, _, index, _) => leader in c.nodes && c.nodes[leader].voter && NextIndex(c.log, index)
    case Commit(entry) => NextIndex(c.log, entry.index)
    case ApplyNext(id) => id in c.nodes && c.nodes[id].pos < |c.log|
    case TakeSnapshot(id) => id in c.nodes
    case Install(id, snap) => id in c.nodes && snap in c.snaps
    case Restart(id) => id in c.nodes
    case SetLevel(id, _) => id in c.nodes
    case Join(id, _) => id !in c.nodes
    case SetVoter(id, _) => id in c.nodes
  }

  function Advertised(n: Node): Capabilities { Capabilities(Versions(if n.level < 0 then 0 else n.level)) }

  /** What RequireVoterSchemaSupport decides when every node advertises the versions 1..level and the
      configuration lists the voters (GateIsChecked). */
  ghost predicate GatePasses(c: Cluster, leader: NodeId, v: int)
    requires leader in c.nodes
  {
    && SupportsOperation(Advertised(c.nodes[leader]), v)
    && forall id :: id in c.nodes && c.nodes[id].voter ==> SupportsOperation(Advertised(c.nodes[id]), v)
  }

  ghost function Proposed(c: Cluster, leader: NodeId, op: Operation, now: string, index: nat, term: nat): Option<Entry>
    requires leader in c.nodes
  {
    if !PrecheckPasses(c.nodes[leader].fsm, op) || !GatePasses(c, leader, op.version) then None
    else match Encode(op, now)
      case Err(_) => None
      case Ok(data) => Some(Entry(index, term, data))
  }

  predicate Skips(n: Node, e: Entry) { VersionOf(e) > n.level }

  function Applied(n: Node, e: Entry): Node {
    n.(fsm := Apply(n.fsm, n.level, e).0, pos := n.pos + 1,
       skipped := if Skips(n, e) then n.skipped + {n.pos} else n.skipped)
  }

  function Installed(n: Node, s: Snap): Node {
    match Accept(s.bytes, n.level)
    case Err(_) => n
    case Ok(f) => n.(fsm := f, pos := s.pos, skipped := s.skipped)
  }

  ghost function After(c: Cluster, ev: Event): Cluster
    requires Enabled(c, ev)
  {
    match ev
    case Propose(leader, op, now, index, term) =>
      (match Proposed(c, leader, op, now, index, term)
       case None => c
       case Some(entry) => c.(log := c.log + [entry]))
    case Commit(entry) => c.(log := c.log + [entry])
    case ApplyNext(id) =>
      var n, e := c.nodes[id], c.log[c.nodes[id].pos];
      var outcome := Apply(n.fsm, n.level, e).1;
      c.(nodes := c.nodes[id := Applied(n, e)],
         answers := if outcome.Answer? then c.answers + {Given(outcome.result, n.voter, n.skipped)} else c.answers)
    case TakeSnapshot(id) =>
      var n := c.nodes[id];
      (match Take(n.fsm, n.level)
       case Err(_) => c
       case Ok(bytes) => c.(snaps := c.snaps + {Snap(bytes, n.pos, n.skipped)}))
    case Install(id, snap) => c.(nodes := c.nodes[id := Installed(c.nodes[id], snap)])
    case Restart(id) => c.(nodes := c.nodes[id := c.nodes[id].(fsm := EMPTY_FSM, pos := 0, skipped := {})])
    case SetLevel(id, maxSchema) => c.(nodes := c.nodes[id := c.nodes[id].(level := ClampLevel(maxSchema))])
    case Join(id, maxSchema) => c.(nodes := c.nodes[id := Node(EMPTY_FSM, 0, ClampLevel(maxSchema), false, {})])
    case SetVoter(id, voter) => c.(nodes := c.nodes[id := c.nodes[id].(voter := voter)])
  }

  ghost predicate Initial(c: Cluster) {
    && c.log == [] && c.snaps == {} && c.answers == {}
    && forall id :: id in c.nodes ==>
         && c.nodes[id].fsm == EMPTY_FSM && c.nodes[id].pos == 0 && c.nodes[id].skipped == {}
         && SupportedVersion(c.nodes[id].level)
  }

  ghost predicate Run(cs: seq<Cluster>, evs: seq<Event>) {
    && |cs| == |evs| + 1
    && Initial(cs[0])
    && forall i :: 0 <= i < |evs| ==> Enabled(cs[i], evs[i]) && cs[i + 1] == After(cs[i], evs[i])
  }

  // ----- Straight replay, and exactly when a machine leaves it ---------------------------------

  /** Nothing the machine skipped would have taken effect. */
  ghost predicate Harmless(log: Log, skipped: set<nat>) {
    forall p :: p in skipped && p < |log| ==> !Effective(log, p)
  }

  /** The machine does not hold the record that effective entry p leaves. */
  ghost predicate Lacks(log: Log, f: Fsm, p: nat)
    requires p < |log| && Effective(log, p)
  {
    var id := OpAt(log, p).id;
    id in f.applied ==> f.applied[id].result.index != log[p].index
  }

  ghost predicate Tracks(log: Log, f: Fsm, pos: nat, skipped: set<nat>) {
    && pos <= |log|
    && (forall p :: p in skipped ==> p < pos)
    && (Harmless(log, skipped) ==> f == Replay(log[..pos]))
    && (!Harmless(log, skipped) ==> exists p :: p in skipped && Effective(log, p) && Lacks(log, f, p))
  }

  lemma TracksMeans(log: Log, f: Fsm, pos: nat, skipped: set<nat>)
    requires Tracks(log, f, pos, skipped)
    ensures f == Replay(log[..pos]) <==> Harmless(log, skipped)
  {
    if !Harmless(log, skipped) {
      var p :| p in skipped && Effective(log, p) && Lacks(log, f, p);
      EffectiveRecorded(log, p, pos);
    }
  }

  /** A node treats the next entry as the straight replay does, unless it skips it. */
  lemma AppliedMeans(n: Node, e: Entry)
    requires n.level >= 0
    ensures Skips(n, e) ==> Apply(n.fsm, n.level, e) == (n.fsm, Refused(UnsupportedVersion))
    ensures !Skips(n, e) ==> Apply(n.fsm, n.level, e) == Apply(n.fsm, VERSION, e)
  {
    if !Skips(n, e) { LevelIrrelevant(n.fsm, n.level, VERSION, e); }
  }

  lemma HarmlessSkip(log: Log, n: Node)
    requires n.pos < |log| && n.fsm == Replay(log[..n.pos]) && Harmless(log, n.skipped)
    requires forall p :: p in n.skipped ==> p < n.pos
    ensures Tracks(log, n.fsm, n.pos + 1, n.skipped + {n.pos})
  {
    ReplayStep(log, n.pos);
    if Effective(log, n.pos) { assert n.pos in n.skipped + {n.pos} && Lacks(log, n.fsm, n.pos); }
  }

  lemma HarmlessApply(log: Log, n: Node)
    requires n.pos < |log| && n.fsm == Replay(log[..n.pos]) && Harmless(log, n.skipped) && n.level >= 0
    requires forall p :: p in n.skipped ==> p < n.pos
    ensures var n' := Applied(n, log[n.pos]); Tracks(log, n'.fsm, n'.pos, n'.skipped)
  {
    AppliedMeans(n, log[n.pos]);
    if Skips(n, log[n.pos]) {
      HarmlessSkip(log, n);
    } else {
      ReplayStep(log, n.pos);
    }
  }

  lemma LacksApply(log: Log, n: Node, p: nat)
    requires WellFormed(log) && p < n.pos < |log| && Effective(log, p) && Lacks(log, n.fsm, p)
    ensures Lacks(log, Applied(n, log[n.pos]).fsm, p)
  {
  }

  lemma TracksApply(log: Log, n: Node)
    requires WellFormed(log) && Tracks(log, n.fsm, n.pos, n.skipped) && n.pos < |log| && n.level >= 0
    ensures var n' := Applied(n, log[n.pos]); Tracks(log, n'.fsm, n'.pos, n'.skipped)
  {
    if Harmless(log, n.skipped) {
      HarmlessApply(log, n);
    } else {
      var p :| p in n.skipped && Effective(log, p) && Lacks(log, n.fsm, p);
      LacksApply(log, n, p);
      assert p in Applied(n, log[n.pos]).skipped;
    }
  }

  /** Whether a skip mattered is settled once and for all: later entries do not change it. */
  lemma HarmlessLonger(log: Log, e: Entry, skipped: set<nat>)
    requires forall p :: p in skipped ==> p < |log|
    ensures Harmless(log + [e], skipped) <==> Harmless(log, skipped)
  {
    forall p | p in skipped ensures Effective(log + [e], p) == Effective(log, p) { PrefixAgrees(log, [e], p); }
  }

  lemma TracksLonger(log: Log, e: Entry, f: Fsm, pos: nat, skipped: set<nat>)
    requires Tracks(log, f, pos, skipped)
    ensures Tracks(log + [e], f, pos, skipped)
  {
    assert (log + [e])[..pos] == log[..pos];
    forall p | p in skipped ensures Effective(log + [e], p) == Effective(log, p) && (log + [e])[p] == log[p] {
      PrefixAgrees(log, [e], p);
    }
    if !Harmless(log, skipped) {
      var p :| p in skipped && Effective(log, p) && Lacks(log, f, p);
      assert Lacks(log + [e], f, p);
    }
  }

  /** What every node and every snapshot keeps, in every run. */
  ghost predicate Inv(c: Cluster) {
    && WellFormed(c.log)
    && (forall id :: id in c.nodes ==> SupportedVersion(c.nodes[id].level))
    && (forall id :: id in c.nodes ==> Tracks(c.log, c.nodes[id].fsm, c.nodes[id].pos, c.nodes[id].skipped))
    && (forall s :: s in c.snaps ==> SnapTracks(c.log, s))
  }

  ghost predicate SnapTracks(log: Log, s: Snap) {
    && s.bytes.Envelope? && s.bytes.integrity == Sum(s.bytes.content)
    && Tracks(log, s.bytes.content.fsm, s.pos, s.skipped)
  }

  lemma InvLonger(c: Cluster, e: Entry)
    requires Inv(c) && NextIndex(c.log, e.index)
    ensures Inv(c.(log := c.log + [e]))
  {
    forall id | id in c.nodes ensures Tracks(c.log + [e], c.nodes[id].fsm, c.nodes[id].pos, c.nodes[id].skipped) {
      TracksLonger(c.log, e, c.nodes[id].fsm, c.nodes[id].pos, c.nodes[id].skipped);
    }
    forall s | s in c.snaps ensures SnapTracks(c.log + [e], s) {
      TracksLonger(c.log, e, s.bytes.content.fsm, s.pos, s.skipped);
    }
  }

  lemma EmptyTracks(log: Log)
    ensures Tracks(log, EMPTY_FSM, 0, {})
  {
    assert log[..0] == [];
  }

  lemma InvStep(c: Cluster, ev: Event)
    requires Inv(c) && Enabled(c, ev)
    ensures Inv(After(c, ev))
  {
    EmptyTracks(c.log);
    match ev
    case Propose(leader, op, now, index, term) =>
      var proposed := Proposed(c, leader, op, now, index, term);
      if proposed.Some? { InvLonger(c, proposed.value); }
    case Commit(entry) => InvLonger(c, entry);
    case TakeSnapshot(id) => TakenTracks(c, id);
    case ApplyNext(id) =>
      TracksApply(c.log, c.nodes[id]);
      InvNode(c, id, Applied(c.nodes[id], c.log[c.nodes[id].pos]), After(c, ev).answers);
    case Install(id, snap) =>
      InstalledTracks(c.log, c.nodes[id], snap);
      InvNode(c, id, Installed(c.nodes[id], snap), After(c, ev).answers);
    case Restart(id) => InvNode(c, id, c.nodes[id].(fsm := EMPTY_FSM, pos := 0, skipped := {}), After(c, ev).answers);
    case SetLevel(id, maxSchema) => InvNode(c, id, c.nodes[id].(level := ClampLevel(maxSchema)), After(c, ev).answers);
    case Join(id, maxSchema) => InvNode(c, id, Node(EMPTY_FSM, 0, ClampLevel(maxSchema), false, {}), After(c, ev).answers);
    case SetVoter(id, voter) => InvNode(c, id, c.nodes[id].(voter := voter), After(c, ev).answers);
  }

  lemma InvNode(c: Cluster, id: NodeId, n: Node, answers: set<Given>)
    requires Inv(c) && SupportedVersion(n.level) && Tracks(c.log, n.fsm, n.pos, n.skipped)
    ensures Inv(c.(nodes := c.nodes[id := n], answers := answers))
  {
  }

  lemma InstalledTracks(log: Log, n: Node, s: Snap)
    requires Tracks(log, n.fsm, n.pos, n.skipped) && SnapTracks(log, s)
    ensures var n' := Installed(n, s); n'.level == n.level && Tracks(log, n'.fsm, n'.pos, n'.skipped)
  {
  }

  /** A snapshot hands over all of a machine: the node that installs it goes on from the state and the
      position of the node it was taken of, unless its own level is lower, which leaves it as it was. */
  lemma HandOver(c: Cluster, from: NodeId, to: NodeId) returns (snap: Snap)
    requires from in c.nodes && to in c.nodes && SupportedVersion(c.nodes[from].level)
    ensures After(c, TakeSnapshot(from)) == c.(snaps := c.snaps + {snap})
    ensures var a, b := c.nodes[from], c.nodes[to];
      Installed(b, snap) == if a.level <= b.level then b.(fsm := a.fsm, pos := a.pos, skipped := a.skipped) else b
  {
    var n := c.nodes[from];
    SnapshotRoundTrip(n.fsm, n.level, c.nodes[to].level, Content(0, 0, n.fsm));
    snap := Snap(Take(n.fsm, n.level).value, n.pos, n.skipped);
  }

  /** A series of events from any state. */
  ghost predicate Steps(cs: seq<Cluster>, evs: seq<Event>) {
    && |cs| == |evs| + 1
    && forall i :: 0 <= i < |evs| ==> Enabled(cs[i], evs[i]) && cs[i + 1] == After(cs[i], evs[i])
  }

  /** The node has gone through the whole log, and nothing else has changed. */
  ghost predicate CaughtUp(c: Cluster, id: NodeId, last: Cluster) {
    && id in c.nodes && last.log == c.log && last.snaps == c.snaps
    && last.nodes == c.nodes[id := Node(Replay(c.log), |c.log|, c.nodes[id].level, c.nodes[id].voter, {})]
  }

  lemma StepsFirst(c: Cluster, ev: Event, cs: seq<Cluster>, evs: seq<Event>)
    requires Enabled(c, ev) && Steps(cs, evs) && cs[0] == After(c, ev)
    ensures Steps([c] + cs, [ev] + evs) && ([c] + cs)[|evs| + 1] == cs[|evs|]
  {
    forall i | 0 <= i < |evs| + 1
      ensures Enabled(([c] + cs)[i], ([ev] + evs)[i]) && ([c] + cs)[i + 1] == After(([c] + cs)[i], ([ev] + evs)[i])
    {
      if i > 0 { assert ([c] + cs)[i] == cs[i - 1] && ([ev] + evs)[i] == evs[i - 1]; }
    }
  }

  lemma ApplyNextStraight(c: Cluster, id: NodeId)
    requires id in c.nodes && c.nodes[id].pos < |c.log| && c.nodes[id].fsm == Replay(c.log[..c.nodes[id].pos])
    requires c.nodes[id].level >= 0 && VersionOf(c.log[c.nodes[id].pos]) <= c.nodes[id].level
    ensures var n, next := c.nodes[id], After(c, ApplyNext(id));
      && next.log == c.log && next.snaps == c.snaps
      && next.nodes == c.nodes[id := n.(fsm := Replay(c.log[..n.pos + 1]), pos := n.pos + 1)]
  {
    AppliedMeans(c.nodes[id], c.log[c.nodes[id].pos]);
    ReplayStep(c.log, c.nodes[id].pos);
  }

  lemma {:induction false} CatchesUp(c: Cluster, id: NodeId) returns (cs: seq<Cluster>, evs: seq<Event>)
    requires id in c.nodes && c.nodes[id].pos <= |c.log| && c.nodes[id].fsm == Replay(c.log[..c.nodes[id].pos])
    requires c.nodes[id].level >= 0 && c.nodes[id].skipped == {} && forall e :: e in c.log ==> VersionOf(e) <= c.nodes[id].level
    ensures Steps(cs, evs) && cs[0] == c && CaughtUp(c, id, cs[|evs|])
    decreases |c.log| - c.nodes[id].pos
  {
    if c.nodes[id].pos == |c.log| {
      assert c.log[..|c.log|] == c.log;
      cs, evs := [c], [];
    } else {
      ApplyNextStraight(c, id);
      var rest, more := CatchesUp(After(c, ApplyNext(id)), id);
      StepsFirst(c, ApplyNext(id), rest, more);
      cs, evs := [c] + rest, [ApplyNext(id)] + more;
    }
  }

  /** A restart mends any machine, however it came to differ: once the node's level covers the log,
      starting again from the empty machine makes it the straight replay of the whole log. */
  lemma RestartRecovers(c: Cluster, id: NodeId) returns (cs: seq<Cluster>, evs: seq<Event>)
    requires id in c.nodes && c.nodes[id].level >= 0 && forall e :: e in c.log ==> VersionOf(e) <= c.nodes[id].level
    ensures Steps(cs, evs) && cs[0] == c && evs != [] && evs[0] == Restart(id) && CaughtUp(c, id, cs[|evs|])
  {
    var next := After(c, Restart(id));
    assert c.log[..0] == [];
    cs, evs := CatchesUp(next, id);
    StepsFirst(c, Restart(id), cs, evs);
    cs, evs := [c] + cs, [Restart(id)] + evs;
  }

  lemma AfterTake(c: Cluster, id: NodeId)
    requires id in c.nodes
    ensures var n := c.nodes[id];
      After(c, TakeSnapshot(id)) ==
        if Take(n.fsm, n.level).Ok? then c.(snaps := c.snaps + {Snap(Take(n.fsm, n.level).value, n.pos, n.skipped)}) else c
  {
  }

  lemma TakenTracks(c: Cluster, id: NodeId)
    requires Inv(c) && id in c.nodes
    ensures Inv(After(c, TakeSnapshot(id)))
  {
    var n := c.nodes[id];
    AfterTake(c, id);
    if Take(n.fsm, n.level).Ok? {
      var s := Snap(Take(n.fsm, n.level).value, n.pos, n.skipped);
      TakenIs(c.log, n, s);
      InvSnap(c, s);
    }
  }

  lemma TakenIs(log: Log, n: Node, s: Snap)
    requires Tracks(log, n.fsm, n.pos, n.skipped) && Take(n.fsm, n.level).Ok?
    requires s == Snap(Take(n.fsm, n.level).value, n.pos, n.skipped)
    ensures SnapTracks(log, s)
  {
  }

  lemma InvSnap(c: Cluster, s: Snap)
    requires Inv(c) && SnapTracks(c.log, s)
    ensures Inv(c.(snaps := c.snaps + {s}))
  {
  }

  lemma {:induction false} InvHolds(cs: seq<Cluster>, evs: seq<Event>, i: nat)
    requires Run(cs, evs) && i < |cs|
    ensures Inv(cs[i])
  {
    if i == 0 {
      forall id | id in cs[0].nodes ensures Tracks([], EMPTY_FSM, 0, {}) { EmptyTracks([]); }
    } else {
      InvHolds(cs, evs, i - 1);
      InvStep(cs[i - 1], evs[i - 1]);
    }
  }

  /** Straight replay. In every state of every run of proposals, commits, applies, snapshots,
      installs, restarts, level and membership changes, a node's machine equals the replay of the log
      prefix it has reached exactly when none of the entries it skipped for their version would
      have taken effect. */
  lemma StraightReplayExactly(cs: seq<Cluster>, evs: seq<Event>, i: nat, id: NodeId)
    requires Run(cs, evs) && i < |cs| && id in cs[i].nodes
    ensures var c, n := cs[i], cs[i].nodes[id];
      && n.pos <= |c.log|
      && (n.fsm == Replay(c.log[..n.pos]) <==> forall p :: p in n.skipped && p < |c.log| ==> !Effective(c.log, p))
  {
    InvHolds(cs, evs, i);
    TracksMeans(cs[i].log, cs[i].nodes[id].fsm, cs[i].nodes[id].pos, cs[i].nodes[id].skipped);
  }

  // ----- The rolling-schema gate ----------------------------------------------------------------

  /** Every append goes through Propose, supported levels never fall, and a node is made a voter only
      when it supports every version in the log. The last is a premise: AddVoter does not check it. */
  ghost predicate Gated(c: Cluster, ev: Event)
    requires Enabled(c, ev)
  {
    match ev
    case Commit(_) => false
    case SetLevel(id, maxSchema) => ClampLevel(maxSchema) >= c.nodes[id].level
    case SetVoter(id, voter) => voter ==> SupportsLog(c.nodes[id].level, c.log)
    case _ => true
  }

  ghost predicate SupportsLog(level: int, log: Log) {
    forall p :: 0 <= p < |log| ==> VersionOf(log[p]) <= level
  }

  /** In addition, a node that skipped an entry that takes effect is emptied or sent another machine's
      snapshot before it becomes a voter, and a voter installs no snapshot of a machine that did. */
  ghost predicate Clean(c: Cluster, ev: Event)
    requires Enabled(c, ev)
  {
    match ev
    case SetVoter(id, voter) => voter ==> Harmless(c.log, c.nodes[id].skipped)
    case Install(id, snap) => c.nodes[id].voter ==> Harmless(c.log, snap.skipped)
    case _ => true
  }

  ghost predicate GatedRun(cs: seq<Cluster>, evs: seq<Event>) {
    Run(cs, evs) && forall i :: 0 <= i < |evs| ==> Gated(cs[i], evs[i])
  }

  ghost predicate CleanRun(cs: seq<Cluster>, evs: seq<Event>) {
    GatedRun(cs, evs) && forall i :: 0 <= i < |evs| ==> Clean(cs[i], evs[i])
  }

  ghost predicate VotersSupportLog(c: Cluster) {
    forall id :: id in c.nodes && c.nodes[id].voter ==> SupportsLog(c.nodes[id].level, c.log)
  }

  /** Where every node advertises its versions and the configuration lists the cluster, the gate of the
      steps is what RequireVoterSchemaSupport decides. */
  lemma GateIsChecked(c: Cluster, leader: NodeId, servers: seq<Server>, known: map<NodeId, Capabilities>, v: int)
    requires leader in c.nodes
    requires forall id :: id in c.nodes ==> id in known && known[id] == Advertised(c.nodes[id])
    requires forall s :: s in servers ==> s.id in c.nodes && s.voter == c.nodes[s.id].voter
    requires forall id :: id in c.nodes ==> Server(id, c.nodes[id].voter) in servers
    ensures GatePasses(c, leader, v) <==>
      SupportsOperation(Advertised(c.nodes[leader]), v) && VotersSupport(servers, known, v)
  {
    if VotersSupport(servers, known, v) {
      forall id | id in c.nodes && c.nodes[id].voter ensures SupportsOperation(Advertised(c.nodes[id]), v) {
        assert Server(id, true) in servers;
      }
    }
  }

  lemma GateStep(c: Cluster, ev: Event)
    requires Enabled(c, ev) && Gated(c, ev) && VotersSupportLog(c)
    ensures VotersSupportLog(After(c, ev))
  {
  }

  /** The gate: in a gated run no voter ever meets an entry above its level, so it never takes the
      unsupported-version branch and never adds to what it skipped. */
  lemma {:induction false} VotersNeverSkip(cs: seq<Cluster>, evs: seq<Event>, i: nat)
    requires GatedRun(cs, evs) && i < |cs|
    ensures VotersSupportLog(cs[i])
    ensures i < |evs| && evs[i].ApplyNext? && cs[i].nodes[evs[i].id].voter ==>
      var n := cs[i].nodes[evs[i].id];
      && Apply(n.fsm, n.level, cs[i].log[n.pos]).1 != Refused(UnsupportedVersion)
      && cs[i + 1].nodes[evs[i].id].skipped == n.skipped
  {
    if i > 0 {
      VotersNeverSkip(cs, evs, i - 1);
      GateStep(cs[i - 1], evs[i - 1]);
    }
    if i < |evs| && evs[i].ApplyNext? && cs[i].nodes[evs[i].id].voter { SupportedApply(cs[i], evs[i].id); }
  }

  lemma SupportedApply(c: Cluster, id: NodeId)
    requires VotersSupportLog(c) && Enabled(c, ApplyNext(id)) && c.nodes[id].voter
    ensures var n := c.nodes[id];
      && Apply(n.fsm, n.level, c.log[n.pos]).1 != Refused(UnsupportedVersion)
      && After(c, ApplyNext(id)).nodes[id].skipped == n.skipped
  {
    var n := c.nodes[id];
    SupportedNotRefused(n.fsm, n.level, c.log[n.pos]);
  }

  lemma SupportedNotRefused(f: Fsm, level: int, e: Entry)
    requires VersionOf(e) <= level
    ensures Apply(f, level, e).1 != Refused(UnsupportedVersion)
  {
  }

  ghost predicate VotersClean(c: Cluster) {
    forall id :: id in c.nodes && c.nodes[id].voter ==> Harmless(c.log, c.nodes[id].skipped)
  }

  lemma {:induction false} VotersStayClean(cs: seq<Cluster>, evs: seq<Event>, i: nat)
    requires CleanRun(cs, evs) && i < |cs|
    ensures VotersClean(cs[i])
  {
    if i > 0 {
      VotersStayClean(cs, evs, i - 1);
      VotersNeverSkip(cs, evs, i - 1);
      InvHolds(cs, evs, i - 1);
      CleanStep(cs[i - 1], evs[i - 1]);
    }
  }

  lemma CleanStep(c: Cluster, ev: Event)
    requires Inv(c) && VotersClean(c) && VotersSupportLog(c) && Enabled(c, ev) && Gated(c, ev) && Clean(c, ev)
    ensures VotersClean(After(c, ev))
  {
    match ev {
      case Propose(leader, op, now, index, term) =>
        var proposed := Proposed(c, leader, op, now, index, term);
        if proposed.Some? {
          forall id | id in c.nodes && c.nodes[id].voter ensures Harmless(c.log + [proposed.value], c.nodes[id].skipped) {
            HarmlessLonger(c.log, proposed.value, c.nodes[id].skipped);
          }
        }
      case ApplyNext(id) => if c.nodes[id].voter { SupportedApply(c, id); }
      case _ =>
    }
  }

  /** Voters never diverge in a clean run: each is the straight replay of its prefix, so two voters
      that have reached the same position are equal, whatever their maximum levels. */
  lemma VotersNeverDiverge(cs: seq<Cluster>, evs: seq<Event>, i: nat, a: NodeId, b: NodeId)
    requires CleanRun(cs, evs) && i < |cs|
    requires a in cs[i].nodes && cs[i].nodes[a].voter && b in cs[i].nodes && cs[i].nodes[b].voter
    ensures cs[i].nodes[a].pos <= |cs[i].log| && cs[i].nodes[a].fsm == Replay(cs[i].log[..cs[i].nodes[a].pos])
    ensures cs[i].nodes[a].pos == cs[i].nodes[b].pos ==> cs[i].nodes[a].fsm == cs[i].nodes[b].fsm
  {
    VotersStayClean(cs, evs, i);
    StraightReplayExactly(cs, evs, i, a);
    StraightReplayExactly(cs, evs, i, b);
  }

  lemma Extend(cs: seq<Cluster>, evs: seq<Event>, ev: Event) returns (cs': seq<Cluster>)
    requires GatedRun(cs, evs) && Enabled(cs[|evs|], ev) && Gated(cs[|evs|], ev)
    ensures cs' == cs + [After(cs[|evs|], ev)] && GatedRun(cs', evs + [ev])
  {
    var next, evs' := After(cs[|evs|], ev), evs + [ev];
    cs' := cs + [next];
    forall i | 0 <= i < |evs'| ensures Enabled(cs'[i], evs'[i]) && cs'[i + 1] == After(cs'[i], evs'[i]) && Gated(cs'[i], evs'[i]) {
      assert cs'[i] == cs[i];
      if i < |evs| { assert evs'[i] == evs[i] && cs'[i + 1] == cs[i + 1]; }
    }
  }

  /** A version 2 operation that the empty machine accepts at level 2 and skips at level 1. */
  lemma FirstVersion2(op: Operation, now: string) returns (e: Entry)
    requires op.version == 2 && now != "" && Encode(op, now).Ok? && Judge(EMPTY_FSM, VERSION, op) == Fresh
    ensures e == Entry(1, 1, Encode(op, now).value) && VersionOf(e) == 2
    ensures Apply(EMPTY_FSM, 2, e).0.appliedIndex == 1 && Apply(EMPTY_FSM, 1, e).0 == EMPTY_FSM
  {
    e := Entry(1, 1, Encode(op, now).value);
    EncodeDecode(op, now, now);
    var logged := Decode(e.data).value;
    assert Judge(EMPTY_FSM, 2, logged) == Fresh by {
      assert logged.kind == op.kind && logged.revision == op.revision && logged.version == op.version;
    }
    assert Apply(EMPTY_FSM, 2, e) == ApplyOp(EMPTY_FSM, 2, logged, 1, 1);
    assert Apply(EMPTY_FSM, 1, e) == ApplyOp(EMPTY_FSM, 1, logged, 1, 1);
  }

  ghost predicate Pair(c: Cluster, log: Log, a: Node, b: Node) {
    c.log == log && c.nodes == map["a" := a, "b" := b]
  }

  lemma ProposeFirst(op: Operation, now: string, a: Node, b: Node) returns (cs: seq<Cluster>, ev: Event, e: Entry)
    requires op.version == 2 && now != "" && Encode(op, now).Ok? && Judge(EMPTY_FSM, VERSION, op) == Fresh
    requires a == Node(EMPTY_FSM, 0, 2, true, {}) && b == Node(EMPTY_FSM, 0, 1, false, {})
    ensures GatedRun(cs, [ev]) && Pair(cs[1], [e], a, b) && VersionOf(e) == 2
    ensures e == Entry(1, 1, Encode(op, now).value)
    ensures Apply(EMPTY_FSM, 2, e).0.appliedIndex == 1 && Apply(EMPTY_FSM, 1, e).0 == EMPTY_FSM
  {
    e := FirstVersion2(op, now);
    var c := Cluster([], map["a" := a, "b" := b], {}, {});
    ev := Propose("a", op, now, 1, 1);
    ProposedFirst(c, op, now, a, b, e);
    cs := Extend([c], [], ev);
    assert [] + [ev] == [ev];
  }

  lemma ProposedFirst(c: Cluster, op: Operation, now: string, a: Node, b: Node, e: Entry)
    requires Pair(c, [], a, b) && a.fsm == EMPTY_FSM && a.voter && !b.voter && a.level == 2 == op.version
    requires Encode(op, now).Ok? && e == Entry(1, 1, Encode(op, now).value)
    ensures Enabled(c, Propose("a", op, now, 1, 1)) && After(c, Propose("a", op, now, 1, 1)) == c.(log := [e])
  {
    assert Proposed(c, "a", op, now, 1, 1) == Some(e);
    assert [] + [e] == [e];
  }

  lemma ApplyBoth(cs: seq<Cluster>, evs: seq<Event>, e: Entry, a: Node, b: Node)
    returns (cs': seq<Cluster>, evs': seq<Event>)
    requires GatedRun(cs, evs) && Pair(cs[|evs|], [e], a, b) && a.pos == b.pos == 0
    ensures GatedRun(cs', evs') && Pair(cs'[|evs'|], [e], Applied(a, e), Applied(b, e))
  {
    cs' := Extend(cs, evs, ApplyNext("a"));
    evs' := evs + [ApplyNext("a")];
    assert Pair(cs'[|evs'|], [e], Applied(a, e), b);
    cs' := Extend(cs', evs', ApplyNext("b"));
    evs' := evs' + [ApplyNext("b")];
  }

  lemma UpgradeAndPromote(cs: seq<Cluster>, evs: seq<Event>, e: Entry, a: Node, b: Node)
    returns (cs': seq<Cluster>, evs': seq<Event>)
    requires GatedRun(cs, evs) && Pair(cs[|evs|], [e], a, b) && b.level <= 2 && VersionOf(e) == 2
    ensures GatedRun(cs', evs') && Pair(cs'[|evs'|], [e], a, b.(level := 2, voter := true))
  {
    cs' := Extend(cs, evs, SetLevel("b", 2));
    evs' := evs + [SetLevel("b", 2)];
    assert Pair(cs'[|evs'|], [e], a, b.(level := 2));
    cs' := Extend(cs', evs', SetVoter("b", true));
    evs' := evs' + [SetVoter("b", true)];
  }

  /** A learner at level 1 skips the first version 2 operation that takes effect, is upgraded and then
      promoted: every step passes the gate. */
  lemma PromotedPair(op: Operation, now: string) returns (cs: seq<Cluster>, evs: seq<Event>, e: Entry, a: Node, b: Node)
    requires op.version == 2 && now != "" && Encode(op, now).Ok? && Judge(EMPTY_FSM, VERSION, op) == Fresh
    ensures GatedRun(cs, evs) && Pair(cs[|evs|], [e], a, b)
    ensures e == Entry(1, 1, Encode(op, now).value) && VersionOf(e) == 2
    ensures a.fsm == Apply(EMPTY_FSM, 2, e).0 && a.fsm.appliedIndex == 1 && b.fsm == EMPTY_FSM
    ensures a.voter && b.voter && a.level == b.level == 2 && a.pos == b.pos == 1
  {
    a, b := Node(EMPTY_FSM, 0, 2, true, {}), Node(EMPTY_FSM, 0, 1, false, {});
    var ev;
    cs, ev, e := ProposeFirst(op, now, a, b);
    cs, evs := ApplyBoth(cs, [ev], e, a, b);
    a, b := Applied(a, e), Applied(b, e);
    cs, evs := UpgradeAndPromote(cs, evs, e, a, b);
    b := b.(level := 2, voter := true);
  }

  /** Supporting every version in the log is not enough to become a voter: a gated run ends with two
      voters that support the whole log, are at the same position and hold different states. */
  lemma PromotedLearnerDiverges(op: Operation, now: string) returns (cs: seq<Cluster>, evs: seq<Event>)
    requires op.version == 2 && now != "" && Encode(op, now).Ok? && Judge(EMPTY_FSM, VERSION, op) == Fresh
    ensures GatedRun(cs, evs)
    ensures var c := cs[|evs|];
      && "a" in c.nodes && "b" in c.nodes && c.nodes["a"].voter && c.nodes["b"].voter
      && SupportsLog(c.nodes["a"].level, c.log) && SupportsLog(c.nodes["b"].level, c.log)
      && c.nodes["a"].pos == c.nodes["b"].pos == |c.log|
      && c.nodes["a"].fsm != c.nodes["b"].fsm
  {
    var e, a, b;
    cs, evs, e, a, b := PromotedPair(op, now);
  }
}
