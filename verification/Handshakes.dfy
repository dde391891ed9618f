/** Handshake replay protection (replication/auth.go): a nonce store that is pruned on every call,
    and the full history of accepted handshakes it has to stand in for. */
module Handshakes {
  import opened Wrappers

  type NodeId = string
  type Nonce = string

  /** Nanoseconds. */
  type Time = int

  const SKEW_WINDOW: Time := 300_000_000_000

  datatype MembershipState = Active | Disabled | Revoked

  /** A timestamp header: an instant in one of its spellings, or text that is not a time. */
  datatype Timestamp = At(instant: Time, spelling: string) | NotATime(text: string)

  datatype AuthBody = AuthBody(nodeId: NodeId, raftServerId: NodeId, raftAddr: string, protocol: int, capabilities: string)

  /** An HMAC over the signed fields, injective as a free constructor, or any other bytes. */
  datatype Signature =
    | Hmac(secret: string, timestamp: Timestamp, nonce: Nonce, requestId: NodeId, body: AuthBody)
    | OtherBytes

  datatype AuthRequest = AuthRequest(body: AuthBody, timestamp: Timestamp, nonce: Nonce, signature: Signature)

  datatype AuthError =
    | IdentityMismatch | IncompatibleProtocol | UnknownMember | NotActive | NotAuthorized
    | BadTimestamp | OutsideWindow | BadSignature | NonceReplay

  type SeenNonces = map<Nonce, Time>

  datatype Peers = Peers(
    protocol: int, secrets: map<NodeId, string>, states: map<NodeId, MembershipState>,
    enabled: map<NodeId, bool>, seen: map<NodeId, SeenNonces>)

  predicate Fresh(at: Time, now: Time) { now - SKEW_WINDOW <= at <= now + SKEW_WINDOW }

  /** Every check that comes before the nonce. */
  function Check(p: Peers, req: AuthRequest, now: Time): Option<AuthError> {
    var id := req.body.nodeId;
    if req.body.raftServerId != id then Some(IdentityMismatch)
    else if req.body.protocol != p.protocol then Some(IncompatibleProtocol)
    else if id !in p.secrets || id !in p.states || id !in p.enabled then Some(UnknownMember)
    else if p.states[id] != Active then Some(NotActive)
    else if !p.enabled[id] then Some(NotAuthorized)
    else if !req.timestamp.At? then Some(BadTimestamp)
    else if !Fresh(req.timestamp.instant, now) then Some(OutsideWindow)
    else if req.signature != Hmac(p.secrets[id], req.timestamp, req.nonce, id, req.body) then Some(BadSignature)
    else None
  }

  function SeenBy(p: Peers, id: NodeId): SeenNonces {
    if id in p.seen then p.seen[id] else map[]
  }

  /** The nonces whose expiry is not before now. */
  function Prune(seen: SeenNonces, now: Time): SeenNonces {
    map n | n in seen && seen[n] >= now :: seen[n]
  }

  function Verify(p: Peers, req: AuthRequest, now: Time): (Peers, Option<AuthError>) {
    var failed := Check(p, req, now);
    if failed.Some? then (p, failed)
    else
      var id := req.body.nodeId;
      var kept := Prune(SeenBy(p, id), now);
      if req.nonce in kept then (p.(seen := p.seen[id := kept]), Some(NonceReplay))
      else (p.(seen := p.seen[id := kept[req.nonce := now + SKEW_WINDOW]]), None)
  }

  /** The authenticator as it runs, one atomic call at a time. */
  class MemoryPeerAuthenticator {
    const protocol: int
    var secrets: map<NodeId, string>
    var states: map<NodeId, MembershipState>
    var enabled: map<NodeId, bool>
    var seen: map<NodeId, SeenNonces>

    function View(): Peers reads this { Peers(protocol, secrets, states, enabled, seen) }

    constructor (protocol: int)
      ensures View() == Peers(protocol, map[], map[], map[], map[])
    {
      this.protocol := protocol;
      secrets, states, enabled, seen := map[], map[], map[], map[];
    }

    method SetSecret(id: NodeId, secret: string)
      modifies this`secrets
      ensures View() == old(View()).(secrets := old(secrets)[id := secret])
    {
      secrets := secrets[id := secret];
    }

    method ConsumeNonce(id: NodeId, nonce: Nonce, now: Time) returns (ok: bool)
      modifies this`seen
      ensures var kept := Prune(SeenBy(old(View()), id), now);
        && ok == (nonce !in kept)
        && (ok ==> seen == old(seen)[id := kept[nonce := now + SKEW_WINDOW]])
        && (!ok ==> seen == old(seen)[id := kept])
    {
      var nonces := if id in seen then seen[id] else map[];
      ghost var before := nonces;
      var todo := nonces.Keys;
      while todo != {}
        invariant nonces == map n | n in before && (n in todo || before[n] >= now) :: before[n]
        invariant todo <= before.Keys
        decreases todo
      {
        var n :| n in todo;
        if nonces[n] < now { nonces := nonces - {n}; }
        todo := todo - {n};
      }
      assert nonces == Prune(before, now);
      if nonce in nonces {
        seen := seen[id := nonces];
        return false;
      }
      nonces := nonces[nonce := now + SKEW_WINDOW];
      seen := seen[id := nonces];
      return true;
    }

    method VerifyHandshakeCommon(req: AuthRequest, now: Time) returns (error: Option<AuthError>)
      modifies this`seen
      ensures (View(), error) == Verify(old(View()), req, now)
    {
      var id := req.body.nodeId;
      if req.body.raftServerId != id { return Some(IdentityMismatch); }
      if req.body.protocol != protocol { return Some(IncompatibleProtocol); }
      if id !in secrets || id !in states || id !in enabled { return Some(UnknownMember); }
      if states[id] != Active { return Some(NotActive); }
      if !enabled[id] { return Some(NotAuthorized); }
      if !req.timestamp.At? { return Some(BadTimestamp); }
      var at := req.timestamp.instant;
      if at < now - SKEW_WINDOW || at > now + SKEW_WINDOW { return Some(OutsideWindow); }
      if req.signature != Hmac(secrets[id], req.timestamp, req.nonce, id, req.body) { return Some(BadSignature); }
      var consumed := ConsumeNonce(id, req.nonce, now);
      return if consumed then None else Some(NonceReplay);
    }

    /** The dialling side: the proof must be of the expected node. */
    method VerifyPeer(expected: NodeId, req: AuthRequest, now: Time) returns (accepted: bool)
      modifies this`seen
      ensures accepted <==>
        expected != "" && req.body.nodeId == expected == req.body.raftServerId && Verify(old(View()), req, now).1.None?
      ensures View() ==
        if expected != "" && req.body.nodeId == expected == req.body.raftServerId
        then Verify(old(View()), req, now).0 else old(View())
    {
      if expected == "" { return false; }
      if req.body.nodeId != expected || req.body.raftServerId != expected { return false; }
      var error := VerifyHandshakeCommon(req, now);
      return error.None?;
    }
  }

  /** What an accepted request proves: a registered, active, enabled member, by its own secret, at a
      time near now. */
  ghost predicate Proves(p: Peers, req: AuthRequest, now: Time) {
    var id := req.body.nodeId;
    && req.body.raftServerId == id
    && req.body.protocol == p.protocol
    && id in p.secrets && id in p.states && id in p.enabled
    && p.states[id] == Active && p.enabled[id]
    && req.timestamp.At? && -300_000_000_000 <= req.timestamp.instant - now <= 300_000_000_000
    && req.signature == Hmac(p.secrets[id], req.timestamp, req.nonce, id, req.body)
  }

  /** The node's nonce is stored and has not expired. */
  ghost predicate Stored(p: Peers, id: NodeId, nonce: Nonce, now: Time) {
    id in p.seen && nonce in p.seen[id] && p.seen[id][nonce] >= now
  }

  /** Accepted, if and only if the request proves its sender and its nonce is not stored. */
  lemma VerifyExactly(p: Peers, req: AuthRequest, now: Time)
    ensures Verify(p, req, now).1.None? <==> Proves(p, req, now) && !Stored(p, req.body.nodeId, req.nonce, now)
    ensures Verify(p, req, now).1 == Some(NonceReplay) <==> Proves(p, req, now) && Stored(p, req.body.nodeId, req.nonce, now)
    ensures !Proves(p, req, now) ==> Verify(p, req, now).0 == p
  {
  }

  /** The refusals tell apart who may not join, what is not compatible and what is not proved: each
      is given exactly when its own requirement fails and those before it hold. */
  lemma RefusedExactly(p: Peers, req: AuthRequest, now: Time)
    ensures var id, r := req.body.nodeId, Verify(p, req, now).1;
      var paired := req.body.raftServerId == id;
      var spoken := paired && req.body.protocol == p.protocol;
      var known := spoken && id in p.secrets.Keys * p.states.Keys * p.enabled.Keys;
      var allowed := known && p.states[id] == Active && p.enabled[id];
      var dated := allowed && req.timestamp.At?;
      var timely := dated && -300_000_000_000 <= req.timestamp.instant - now <= 300_000_000_000;
      && (r == Some(IdentityMismatch) <==> !paired)
      && (r == Some(IncompatibleProtocol) <==> paired && !spoken)
      && (r == Some(UnknownMember) <==> spoken && !known)
      && (r == Some(NotActive) <==> known && p.states[id] in {Disabled, Revoked})
      && (r == Some(NotAuthorized) <==> known && p.states[id] == Active && !p.enabled[id])
      && (r == Some(BadTimestamp) <==> allowed && !dated)
      && (r == Some(OutsideWindow) <==> dated && !timely)
      && (r == Some(BadSignature) <==> timely && !Proves(p, req, now))
  {
  }

  /** What a call leaves stored. An acceptance stores its own nonce for one window; a call that reached
      the nonces forgets what has expired, of its own node alone. */
  lemma StoredExactly(p: Peers, req: AuthRequest, now: Time, id: NodeId, nonce: Nonce)
    ensures var q, accepted := Verify(p, req, now).0, Verify(p, req, now).1.None?;
      var own := accepted && id == req.body.nodeId && nonce == req.nonce;
      var cleared := Proves(p, req, now) && id == req.body.nodeId;
      && (nonce in SeenBy(q, id) <==> own || (nonce in SeenBy(p, id) && (cleared ==> SeenBy(p, id)[nonce] >= now)))
      && (nonce in SeenBy(q, id) ==> SeenBy(q, id)[nonce] == if own then now + 300_000_000_000 else SeenBy(p, id)[nonce])
      && q.(seen := p.seen) == p
  {
  }

  // ----- Whole runs -----------------------------------------------------------------------------

  /** A handshake at a clock reading, or any change of the membership tables by the setters. */
  datatype Event =
    | Handshake(req: AuthRequest, now: Time)
    | Configure(secrets: map<NodeId, string>, states: map<NodeId, MembershipState>, enabled: map<NodeId, bool>)

  function After(p: Peers, ev: Event): Peers {
    match ev
    case Handshake(req, now) => Verify(p, req, now).0
    case Configure(secrets, states, enabled) => p.(secrets := secrets, states := states, enabled := enabled)
  }

  /** From an empty store, with a clock that never goes back. */
  ghost predicate Run(ps: seq<Peers>, evs: seq<Event>) {
    && |ps| == |evs| + 1
    && ps[0].seen == map[]
    && (forall i :: 0 <= i < |evs| ==> ps[i + 1] == After(ps[i], evs[i]))
    && (forall i, j :: 0 <= i < j < |evs| && evs[i].Handshake? && evs[j].Handshake? ==> evs[i].now <= evs[j].now)
  }

  ghost predicate Accepted(ps: seq<Peers>, evs: seq<Event>, i: nat)
    requires |ps| == |evs| + 1 && i < |evs|
  {
    evs[i].Handshake? && Verify(ps[i], evs[i].req, evs[i].now).1.None?
  }

  /** Event i accepted nonce of node id. */
  ghost predicate Accepts(ps: seq<Peers>, evs: seq<Event>, i: nat, id: NodeId, nonce: Nonce)
    requires |ps| == |evs| + 1 && i < |evs|
  {
    Accepted(ps, evs, i) && evs[i].req.body.nodeId == id && evs[i].req.nonce == nonce
  }

  /** An acceptance is in the store until some later call's clock has passed its expiry. */
  ghost predicate Remembered(ps: seq<Peers>, evs: seq<Event>, i: nat, h: nat)
    requires |ps| == |evs| + 1 && h < i <= |evs| && Accepted(ps, evs, h)
  {
    var seen := SeenBy(ps[i], evs[h].req.body.nodeId);
    || (evs[h].req.nonce in seen && seen[evs[h].req.nonce] >= evs[h].now + SKEW_WINDOW)
    || exists j :: h < j < i && evs[j].Handshake? && evs[h].now + SKEW_WINDOW < evs[j].now
  }

  /** A verification touches one nonce: its own. Everything else it keeps or drops. */
  lemma VerifyKeeps(p: Peers, req: AuthRequest, now: Time, id: NodeId, nonce: Nonce)
    requires nonce in SeenBy(Verify(p, req, now).0, id)
    ensures
      || (nonce in SeenBy(p, id) && SeenBy(Verify(p, req, now).0, id)[nonce] == SeenBy(p, id)[nonce])
      || (Verify(p, req, now).1.None? && req.body.nodeId == id && req.nonce == nonce
          && SeenBy(Verify(p, req, now).0, id)[nonce] == now + SKEW_WINDOW)
  {
  }

  /** A stored expiry comes from an acceptance. */
  lemma {:induction false} StoreSource(ps: seq<Peers>, evs: seq<Event>, i: nat, id: NodeId, nonce: Nonce) returns (h: nat)
    requires Run(ps, evs) && i <= |evs| && nonce in SeenBy(ps[i], id)
    ensures h < i && Accepts(ps, evs, h, id, nonce) && SeenBy(ps[i], id)[nonce] == evs[h].now + SKEW_WINDOW
    decreases i
  {
    var ev := evs[i - 1];
    if ev.Handshake? { VerifyKeeps(ps[i - 1], ev.req, ev.now, id, nonce); }
    if nonce in SeenBy(ps[i - 1], id) && SeenBy(ps[i], id)[nonce] == SeenBy(ps[i - 1], id)[nonce] {
      h := StoreSource(ps, evs, i - 1, id, nonce);
    } else {
      h := i - 1;
    }
  }

  lemma {:induction false} AcceptanceRemembered(ps: seq<Peers>, evs: seq<Event>, i: nat, h: nat)
    requires Run(ps, evs) && h < i <= |evs| && Accepted(ps, evs, h)
    ensures Remembered(ps, evs, i, h)
    decreases i
  {
    if h < i - 1 {
      AcceptanceRemembered(ps, evs, i - 1, h);
      if evs[i - 1].Handshake? && evs[h].now + SKEW_WINDOW < evs[i - 1].now {
        assert h < i - 1 < i;
      }
    }
  }

  /** The pruned store decides as the full history would: a handshake that passes the other checks
      is accepted exactly when its node's nonce was not accepted within the last skew window. */
  lemma StoreIsHistory(ps: seq<Peers>, evs: seq<Event>, i: nat)
    requires Run(ps, evs) && i < |evs| && evs[i].Handshake? && Check(ps[i], evs[i].req, evs[i].now).None?
    ensures Accepted(ps, evs, i) <==>
      forall h :: 0 <= h < i && Accepts(ps, evs, h, evs[i].req.body.nodeId, evs[i].req.nonce) ==>
        evs[h].now + SKEW_WINDOW < evs[i].now
  {
    var id, nonce, now := evs[i].req.body.nodeId, evs[i].req.nonce, evs[i].now;
    var kept := Prune(SeenBy(ps[i], id), now);
    if nonce in kept {
      var h := StoreSource(ps, evs, i, id, nonce);
    } else {
      forall h | 0 <= h < i && Accepts(ps, evs, h, id, nonce) ensures evs[h].now + SKEW_WINDOW < now {
        AcceptanceRemembered(ps, evs, i, h);
      }
    }
  }

  /** Acceptance in a run, over the request and the history alone. */
  lemma AcceptedExactly(ps: seq<Peers>, evs: seq<Event>, i: nat)
    requires Run(ps, evs) && i < |evs| && evs[i].Handshake?
    ensures Accepted(ps, evs, i) <==>
      && Proves(ps[i], evs[i].req, evs[i].now)
      && forall h :: 0 <= h < i && Accepts(ps, evs, h, evs[i].req.body.nodeId, evs[i].req.nonce) ==>
        evs[h].now + 300_000_000_000 < evs[i].now
  {
    VerifyExactly(ps[i], evs[i].req, evs[i].now);
    if Check(ps[i], evs[i].req, evs[i].now).None? { StoreIsHistory(ps, evs, i); }
  }

  lemma AcceptedFresh(ps: seq<Peers>, evs: seq<Event>, i: nat)
    requires Run(ps, evs) && i < |evs| && Accepted(ps, evs, i)
    ensures evs[i].req.timestamp.At? && Fresh(evs[i].req.timestamp.instant, evs[i].now)
  {
  }

  /** The same signed handshake: same node, nonce and instant. */
  ghost predicate SameHandshake(a: AuthRequest, b: AuthRequest) {
    && a.body.nodeId == b.body.nodeId && a.nonce == b.nonce
    && a.timestamp.At? && b.timestamp.At? && a.timestamp.instant == b.timestamp.instant
  }

  /** One handshake is accepted at most twice, and at most once when its timestamp was not later than
      the clock at its first acceptance. */
  lemma AtMostTwice(ps: seq<Peers>, evs: seq<Event>, i: nat, j: nat, k: nat)
    requires Run(ps, evs) && i < j < |evs| && Accepted(ps, evs, i) && Accepted(ps, evs, j)
    requires SameHandshake(evs[i].req, evs[j].req)
    ensures evs[i].req.timestamp.instant > evs[i].now
    ensures j < k < |evs| && Accepted(ps, evs, k) ==> !SameHandshake(evs[j].req, evs[k].req)
  {
    StoreIsHistory(ps, evs, j);
    AcceptedFresh(ps, evs, i);
    AcceptedFresh(ps, evs, j);
    assert Accepts(ps, evs, i, evs[j].req.body.nodeId, evs[j].req.nonce);
    if j < k < |evs| && Accepted(ps, evs, k) {
      StoreIsHistory(ps, evs, k);
      AcceptedFresh(ps, evs, k);
      assert Accepts(ps, evs, j, evs[j].req.body.nodeId, evs[j].req.nonce);
    }
  }

  /** The bound is sharp (AcceptedTwice), and this is the whole gap: a handshake presented again at a later reading,
      with nothing else of that nonce accepted in between and its membership intact, is
      accepted exactly in the interval after its nonce expires and before its timestamp does. */
  lemma ReplayAcceptedExactly(ps: seq<Peers>, evs: seq<Event>, i: nat, j: nat)
    requires Run(ps, evs) && i < j < |evs| && Accepted(ps, evs, i)
    requires evs[j].Handshake? && evs[j].req == evs[i].req
    requires forall h :: i < h < j ==> !Accepts(ps, evs, h, evs[i].req.body.nodeId, evs[i].req.nonce)
    requires ps[j].protocol == ps[i].protocol && ps[j].secrets == ps[i].secrets
      && ps[j].states == ps[i].states && ps[j].enabled == ps[i].enabled
    ensures Accepted(ps, evs, j) <==>
      evs[i].now + SKEW_WINDOW < evs[j].now <= evs[i].req.timestamp.instant + SKEW_WINDOW
  {
    var req := evs[i].req;
    assert Accepts(ps, evs, i, req.body.nodeId, req.nonce);
    if Check(ps[j], req, evs[j].now).None? {
      StoreIsHistory(ps, evs, j);
      if evs[i].now + SKEW_WINDOW < evs[j].now {
        forall h | 0 <= h < j && Accepts(ps, evs, h, req.body.nodeId, req.nonce)
          ensures evs[h].now + SKEW_WINDOW < evs[j].now
        {
          assert h <= i;
        }
      }
    }
  }

  /** A run in which it happens: for any clock readings in that interval, a handshake of any active member
      is accepted twice. */
  lemma AcceptedTwice(body: AuthBody, secret: string, nonce: Nonce, instant: Time, spelling: string, first: Time, second: Time)
    returns (ps: seq<Peers>, evs: seq<Event>)
    requires body.nodeId == body.raftServerId && Fresh(instant, first)
    requires first + SKEW_WINDOW < second <= instant + SKEW_WINDOW
    ensures Run(ps, evs) && |evs| == 3 && Accepted(ps, evs, 1) && Accepted(ps, evs, 2) && evs[1].req == evs[2].req
    ensures evs[1].now == first && evs[2].now == second && evs[1].req.body == body && evs[1].req.nonce == nonce
  {
    var id, stamp := body.nodeId, At(instant, spelling);
    var req := AuthRequest(body, stamp, nonce, Hmac(secret, stamp, nonce, id, body));
    evs := [Configure(map[id := secret], map[id := Active], map[id := true]), Handshake(req, first), Handshake(req, second)];
    var p0 := Peers(body.protocol, map[], map[], map[], map[]);
    var p1 := After(p0, evs[0]);
    var p2 := After(p1, evs[1]);
    assert Check(p1, req, first).None? && SeenBy(p1, id) == map[];
    assert SeenBy(p2, id) == map[nonce := first + SKEW_WINDOW] && Check(p2, req, second).None?;
    assert Prune(SeenBy(p2, id), second) == map[];
    ps := [p0, p1, p2, After(p2, evs[2])];
  }

  /** After every call, whatever it decided, all remaining nonces of all nodes expire within one window
      from now, and those of a node whose handshake reached the nonce check have not expired. */
  lemma StoreBounded(ps: seq<Peers>, evs: seq<Event>, i: nat, id: NodeId, nonce: Nonce)
    requires Run(ps, evs) && i < |evs| && evs[i].Handshake? && nonce in SeenBy(ps[i + 1], id)
    ensures SeenBy(ps[i + 1], id)[nonce] <= evs[i].now + SKEW_WINDOW
    ensures id == evs[i].req.body.nodeId && Check(ps[i], evs[i].req, evs[i].now).None? ==>
      evs[i].now <= SeenBy(ps[i + 1], id)[nonce]
  {
    var h := StoreSource(ps, evs, i + 1, id, nonce);
  }
}
