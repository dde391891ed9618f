# Gantry Core: a verified model

Gantry Core is a Go library of building blocks for small self-hosted applications: a replicated
key/value state machine, signed handshakes between peers, propagation of configuration between
nodes, transcript merging, bounded terminal scrollback, accounts and sessions, and JSON redaction.
This project models the parts of it that have an invariant, a protocol or an algorithm to get wrong,
and proves what they promise. `dafny verify dfyconfig.toml` checks everything.

## What is modelled

**Replicated state machine** (`Operations`, `KvFsm`, `KvFsmClass`, `Snapshots`, `CommittedLog`,
`Revisions`, `NodePropose`, `ReplicatedCluster`, `ClusterAnswers`). Applying an entry is a function on
state values; class `KVFSM` performs it on its fields, branch by branch. `CommittedLog` says what a log
means by itself, `Revisions` compares the keyspace with a naive replay, and `ReplicatedCluster` is a
step system: propose, commit, apply, snapshot, install, restart, change of level, join, change of vote.
`ClusterAnswers` is about what its nodes return.
Raft is a given: one append-only log with increasing indices. Revisions are int64 and wrap.

**Handshakes** (`Handshakes`). The nonce store is pruned on every call; runs compare it with the full
history of accepted handshakes.

**Propagation** (`PropagationPlan`, `PropagationRuntime`, `PropagationTransaction`, `FanOut`). The
adapter and the executor are classes whose calls succeed or fail arbitrarily; the fan-out is a step
system with any interleaving.

**Transcripts, scrollback, redaction** (`Conversations`, `Transcripts`, `Scrollback`, `Redaction`). The
loops are methods proved against functions, and the laws are proved of the functions. UTF-8 is that of
sections 3 and 4 of RFC 3629, pointers those of sections 3 and 4 of RFC 6901.

**Accounts, passwords, sessions** (`Accounts`, `DocumentRules`, `Capabilities`, `AccountEdits`,
`AccountEffects`, `AccountModel`, `Pbkdf2`, `Failures`, `Sessions`). Validation is proved to be a
declarative invariant, which every mutator keeps; what each mutator changes is stated field by field. Key derivation is that of section 5.2 of RFC 8018.

`Wrappers`, `Octets`, `Text`, `JsonText`, `Sequences` and `Sorting` hold what the others share.

SHA-256 and HMAC are free constructors, so they are injective; in PBKDF2 the HMAC is any function with
a 32-byte result. Clocks, random identifiers, salted hashes, the outcome of saving and the callbacks of a
product are arguments. Every call under a mutex is one atomic step.

## What the code does that its documentation does not say

- Supporting every version in the log is not enough for a node to become a voter. A learner that once
  skipped a newer operation and is upgraded later passes every check and still diverges
  (`PromotedLearnerDiverges`), and as leader acknowledges an operation a second time with another record
  (`PromotedLearnerAnswersAnew`). What is needed is that nothing it skipped would have taken effect
  (`StraightReplayExactly`, `AnswersStraightExactly`, `ReadAfterForwardExactly`).
- A handshake whose timestamp lies in the receiver's future can be accepted twice (`AcceptedTwice`), and
  `ReplayAcceptedExactly` says when.
- Two events that differ only in where a NUL character stands between text and name count as one, so the
  client's can be lost (`NulCollides`); without NUL characters this cannot happen (`SignatureExactly`).
- A terminal marker that is also part of a replaced assistant text goes with it, so a run can end up
  with no marker (`MarkerCanVanish`, `OneMarkerPerRun`).
- Appending two chunks of output one by one equals appending them at once exactly when the first does
  not end in bad bytes (`ChunkedScrollbackExactly`).
- A failed bundle can lose an object when a kind contains a slash, because the snapshot is taken by kind
  and looked up by key (`FullRollback`, `SlashLoses`).
- A node that was applied before several failures is rolled back once for each of them
  (`RolledBackPerFailure`).
- `SetIdentityEnabled` validates like the other mutators, so it keeps the last administrator too;
  `ConsumeRecoveryCode` does not validate and does not need to (`CredentialEditsValid`).
- A session that cannot be saved is opened in memory all the same, and the stored sessions that a
  restart takes over are not capped (`SessionStore.CreateSession`, its constructor).

## Model

| member | source | states |
|---|---|---|
| Operations.EncodeDecode | replication/operation.go:65-134 | Encoding accepts exactly the valid operations with a parsable payload; decoding undoes it up to canonical payload and timestamp; the digest survives; encoding what the log holds again gives the same bytes |
| Operations.ValidExactly | replication/operation.go:114-141 | An operation is valid if and only if id, product, kind and object id are not blank, the version is 1 or 2 and there is a payload |
| Operations.SameDigest | replication/operation.go:65-85 | Two digests agree if and only if the payloads are one document, however spelled |
| Operations.ValueOfPayload | replication/kvfsm.go:121-126 | A set writes the text under "value", the empty text without one, and is refused for anything else |
| KvFsm.LevelIrrelevant | replication/kvfsm.go:100-103 | Two machines that both support an entry's version treat it alike whatever their maxima |
| KvFsm.ClampLevel | replication/kvfsm.go:57-85 | The level is always a supported one, and the requested one when that is supported |
| KvFsmClass.KVFSM.constructor | replication/kvfsm.go:53-71 | A new machine is the empty one at the clamped level |
| KvFsmClass.KVFSM.SetSupported | replication/kvfsm.go:73-86 | Only the level changes, to the clamped value |
| KvFsmClass.KVFSM.ApplyEntry | replication/kvfsm.go:90-98 | The in-place update and the answer are those of the state function the log theorems are about |
| KvFsmClass.KVFSM.ApplyLocked | replication/kvfsm.go:100-162 | The switch over kinds, revisions and duplicates computes the state function, with all fields accounted for; what that function answers is Revisions.AnswerExactly and CommittedLog.RetryAnswered |
| KvFsmClass.KVFSM.OpKnown | replication/kvfsm.go:167-175 | On a machine that is the replay of any log, a digest is returned exactly when an effective entry of the log had the ID, and it is that of its payload |
| KvFsmClass.KVFSM.Snapshot | replication/kvfsm.go:198-215 | Taking a snapshot of a machine in a valid state always succeeds and captures its whole view |
| KvFsmClass.KVFSM.Restore | replication/kvfsm.go:217-251 | All or nothing: an acceptable snapshot replaces the whole state, a refused one leaves every field as it was |
| Snapshots.SnapshotRoundTrip | replication/snapshot.go:33-83 | A snapshot restores exactly the state it was taken of on every machine at the producer's level or above and is refused below; any change of content is refused as an integrity failure |
| Snapshots.AcceptExactly | replication/snapshot.go:53-83 | Bytes restore a state if and only if they are an intact envelope around it, of format 1 and of a replication version that the build and the machine support |
| CommittedLog.ReplayStep | replication/kvfsm.go:90-162 | Replay goes entry by entry, and an entry that does not take effect changes nothing |
| CommittedLog.TableGrows | replication/kvfsm.go:111-116 | Records in the idempotency table are never removed or rewritten |
| CommittedLog.EffectiveRecorded | replication/kvfsm.go:145-161 | An effective entry leaves its own answer and index in the table for good |
| CommittedLog.RecordHasSource | replication/kvfsm.go:145-161 | Every record was left by one effective entry with that ID |
| CommittedLog.KnownExactly | replication/kvfsm.go:167-175 | After replaying a log an ID is known exactly when an effective entry had it, under the digest of that entry's payload |
| CommittedLog.ExactlyOnce | replication/kvfsm.go:111-116 | Of two different entries with one operation ID at most one takes effect |
| CommittedLog.AnswersAgree | replication/kvfsm.go:111-116 | All successful answers to one ID, duplicates included, are the same record |
| CommittedLog.RetryAnswered | replication/kvfsm.go:111-116 | After an operation took effect, every further entry with its ID and payload is answered as it was, whatever precondition it names, and one with another payload is refused as such |
| CommittedLog.FirstAndLast | replication/kvfsm.go:155-160 | The product is that of the first effective entry, the applied index and term are those of the last |
| CommittedLog.AnswerSource | replication/kvfsm.go:111-161 | A successful answer is that of an effective entry at or before it with the same ID, and names that entry's index |
| CommittedLog.ReplayKept | replication/kvfsm.go:100-162 | Deleting every rejected or duplicate entry leaves the final machine unchanged; what is left is as many entries as there are records, all effective |
| CommittedLog.PositionSource | replication/kvfsm.go:155-160 | The applied position is the index of an effective entry |
| CommittedLog.PositionCovers | replication/kvfsm.go:155-160 | The applied position is at or past every effective entry replayed |
| CommittedLog.ReadAfterForwardAt | replication/node.go:233-247 | The applied position has passed an effective entry exactly when the entry is replayed, and exactly then the machine holds its ID with the answer it got |
| Revisions.KeyspaceIsNaiveReplay | replication/kvfsm.go:118-144 | The keyspace is the naive replay of the effective operations, and a live key's revision counts its sets since its last delete |
| Revisions.EffectiveExactly | replication/kvfsm.go:100-144 | An entry takes effect if and only if it decodes, has a known kind and readable payload, has an ID no earlier entry used, and its precondition names the number of sets since the last delete of a live key |
| Revisions.AnswerExactly | replication/kvfsm.go:90-162 | The whole answer to every entry of every log, from the log alone: which refusal in which order, the first answer for a retry, or a new result with each of its fields |
| NodePropose.RequireVoterSchemaSupport | replication/node.go:283-307 | The gate passes exactly when the proposer advertises the version and, unless there is no source of capabilities, the configuration can be read and every voter in it advertises the version; a voter with unknown capabilities blocks, a learner does not |
| NodePropose.Versions | replication/node.go:344-352 | A node advertises exactly the versions 1 to its level |
| ReplicatedCluster.GateIsChecked | replication/node.go:283-307 | Over a configuration that lists the cluster, that check decides as the gate of the step system does |
| NodePropose.PrecheckForetellsApply | replication/node.go:261-277 | The check before proposing refuses exactly what the machine would refuse as a known ID with another payload |
| ReplicatedCluster.InvStep | replication/kvfsm.go:90-251 | Every step keeps the link between each node or snapshot, its log position and what it skipped |
| ReplicatedCluster.InvHolds | replication/kvfsm.go:90-251 | That invariant holds in every reachable state |
| ReplicatedCluster.HandOver | replication/kvfsm.go:198-251 | A node that installs a snapshot goes on from the state and position of the node it was taken of, unless its level is lower |
| ReplicatedCluster.RestartRecovers | replication/kvfsm.go:90-162 | Started again from the empty machine, a node whose level covers the log goes through all of it and ends as its straight replay, however it differed before |
| ReplicatedCluster.StraightReplayExactly | replication/kvfsm.go:90-251 | In every run, a node that has reached a position is the straight replay of the log to there if and only if no entry it skipped would have taken effect |
| ReplicatedCluster.VotersNeverSkip | replication/node.go:261-307 | In a gated run no voter ever takes the unsupported-version branch |
| ReplicatedCluster.VotersNeverDiverge | replication/node.go:344-362 | When in addition no node becomes or is reset to a voter with an effective entry skipped, each voter is the straight replay of its prefix, and voters at one position are equal whatever their maxima |
| ReplicatedCluster.PromotedLearnerDiverges | replication/node.go:437-440 | A gated run in which an upgraded and promoted learner differs from another voter at the same position |
| ClusterAnswers.OneRecordPerId | replication/kvfsm.go:111-116 | In every run, forwarded and ungated appends included, all results ever returned for one ID by voters and learners that had skipped nothing effective, across snapshots, installs and restarts, are one record |
| ClusterAnswers.AnswersStraightExactly | replication/kvfsm.go:100-162 | In every run a node answers every further entry of a version it supports as the straight replay does if and only if it skipped nothing effective |
| ClusterAnswers.VotersOneRecord | replication/kvfsm.go:111-116 | In a clean gated run that covers everything that voters ever return |
| ClusterAnswers.PromotedLearnerAnswersAnew | replication/node.go:437-440 | The condition is needed: in a gated run the promoted voter leads, is sent an acknowledged operation again and acknowledges it with a different record |
| ClusterAnswers.ReadAfterForwardExactly | replication/node.go:233-247 | In every run, on any node, the wait test and the table agree with the log for every effective entry if and only if the node skipped no effective entry |
| ClusterAnswers.ReadAfterForward | replication/node.go:233-277 | In every run, for a result returned by and awaited on nodes that skipped nothing effective, the wait test is true exactly when the waiting node has passed the named entry, and exactly then it holds the ID with that result |
| Handshakes.MemoryPeerAuthenticator.constructor | replication/auth.go:194-204 | A new authenticator knows nobody and has seen nothing |
| Handshakes.MemoryPeerAuthenticator.SetSecret | replication/auth.go:207-212 | Only the secret of that node changes |
| Handshakes.MemoryPeerAuthenticator.ConsumeNonce | replication/auth.go:239-255 | After pruning, a nonce still present is refused and one not present is stored with a window from now; other nodes are untouched |
| Handshakes.MemoryPeerAuthenticator.VerifyHandshakeCommon | replication/auth.go:260-300 | The checks in their order, the error and the new store are those of the function whose meaning VerifyExactly, RefusedExactly and StoredExactly give |
| Handshakes.MemoryPeerAuthenticator.VerifyPeer | replication/auth.go:311-322 | A proof counts only for the expected node, and a proof of another node consumes nothing |
| Handshakes.VerifyKeeps | replication/auth.go:239-300 | A call adds at most its own nonce and only when it accepts; every other stored expiry is kept or dropped, never changed |
| Handshakes.VerifyExactly | replication/auth.go:260-300 | Accepted if and only if node and server id agree, the protocol is equal, the member is registered, active and enabled, the timestamp is within 300 seconds, the signature is the HMAC of the request under the secret of that node, and no unexpired nonce is stored |
| Handshakes.RefusedExactly | replication/auth.go:260-295 | Each refusal is given if and only if its own requirement fails and those before it hold |
| Handshakes.StoredExactly | replication/auth.go:239-255 | What every call leaves stored for every node and nonce |
| Handshakes.StoreSource | replication/auth.go:239-255 | Every stored expiry comes from an acceptance and is a window after it |
| Handshakes.StoreIsHistory | replication/auth.go:239-300 | A handshake that passes the other checks is accepted if and only if its nonce was not accepted within the last window: the pruned store decides as the full history would |
| Handshakes.AcceptedExactly | replication/auth.go:239-300 | In every run, a handshake is accepted if and only if the request proves its sender and no handshake of that node and nonce was accepted within the last 300 seconds |
| Handshakes.AtMostTwice | replication/auth.go:281-298 | One signed handshake is accepted at most twice, and at most once if its timestamp was not later than the clock at its first acceptance |
| Handshakes.ReplayAcceptedExactly | replication/auth.go:281-298 | A second presentation is accepted exactly between the expiry of its nonce and the expiry of its timestamp |
| Handshakes.AcceptedTwice | replication/auth.go:281-298 | For all clock readings in that interval there is a run in which one handshake is accepted twice |
| Handshakes.StoreBounded | replication/auth.go:239-255 | After every call all remaining nonces of all nodes expire within one window from now, and those of a node whose handshake got that far have not expired |
| Scrollback.AppendScrollback | terminal/terminal.go:53-67 | The byte loop cuts the repaired text at the first boundary that brings it within the limit |
| Scrollback.ToValidNormalizes | terminal/terminal.go:68-70 | Repair gives well-formed UTF-8, changes well-formed text not at all, and is idempotent |
| Scrollback.ToValidExactly | terminal/terminal.go:68-70 | Part by part: well-formed text stays, and a whole run of bytes none of which begins a sequence becomes one U+FFFD |
| Scrollback.RuneLenExactly | terminal/terminal.go:62-70 | A sequence counts as well-formed if and only if it is the encoding of a scalar value by section 3 of RFC 3629 |
| Scrollback.ValidExactly | terminal/terminal.go:62-70 | Text is well-formed if and only if it encodes some scalar values |
| Scrollback.SuffixValid | terminal/terminal.go:62-65 | A suffix of well-formed text is well-formed exactly when it starts at a boundary |
| Scrollback.BoundaryNear | terminal/terminal.go:62-65 | A boundary is never more than 3 bytes away |
| Scrollback.ScrollbackLongest | terminal/terminal.go:53-67 | The result is the longest well-formed suffix that fits the limit, and truncation gives up at most 3 bytes |
| Scrollback.KeepTwice | terminal/terminal.go:53-67 | Cutting, appending and cutting again is cutting once |
| Scrollback.KeepExactly | terminal/terminal.go:57-66 | Whatever the bytes: all of them when they fit, otherwise the longest suffix that fits and does not begin inside a sequence |
| Scrollback.ChunkedScrollbackExactly | terminal/terminal.go:53-67 | Output may be written in two chunks, for every later chunk, every content and every limit, if and only if the first does not end in a run of bad bytes; well-formed text never does |
| Pbkdf2.PBKDF2SHA256 | auth/accounts.go:262-277 | The loops compute the derived key of section 5.2 of RFC 8018 for every password, salt, iteration count and size, and end |
| Pbkdf2.DeriveBlock | auth/accounts.go:264-275 | The inner loop is the exclusive-or of the chained rounds of one block |
| Pbkdf2.DerivedBitExactly | auth/accounts.go:262-277 | Bit by bit: a bit of the key is set if and only if an odd number of the chained rounds of its block have it set, the first round being of the salt and the four bytes of the block number |
| Pbkdf2.ShorterIsPrefix | auth/accounts.go:262-277 | A shorter derived key is the beginning of every longer one |
| Pbkdf2.CounterValue | auth/accounts.go:265 | The four counter bytes are the block number modulo 2^32, big-endian |
| Pbkdf2.WithinBoundExactly | auth/accounts.go:264-265 | Every block is derived from its own number if and only if the size is within the standard's bound |
| Conversations.MergeEvents | conversations/conversations.go:68-90 | The counting, the stable sort and the two passes compute the merged transcript the laws are about |
| Conversations.CountSignatures | conversations/conversations.go:69-74 | The map holds the multiplicity of every signature |
| Transcripts.BagCounts | conversations/conversations.go:69-74 | The multiplicity of a signature is the number of positions that have it |
| Conversations.TakeUnmatched | conversations/conversations.go:75-83 | Counting down selects the client events that no server event accounts for |
| Conversations.SupersedeReplacements | conversations/conversations.go:105-129 | Drops exactly the fragments that some replacement of their run covers |
| Conversations.SupersedeTerminals | conversations/conversations.go:130-144 | Drops exactly the markers that a later marker of their run follows |
| Conversations.DropEvents | conversations/conversations.go:145-156 | Exactly the dropped positions go, in order |
| Conversations.CollatedCounts | conversations/conversations.go:68-83 | Before superseding, each signature occurs the maximum of its server and client counts |
| Transcripts.SignatureExactly | conversations/conversations.go:67 | Without NUL characters, signatures agree if and only if kind, text and name do |
| Transcripts.NulCollides | conversations/conversations.go:67-83 | With them, an event of the client can be lost to a different one of the server |
| Transcripts.UnmatchedExactly | conversations/conversations.go:75-83 | Of each signature the client's first events are left out, as many as the server has; all others are added as they are, in their order |
| Transcripts.NewEventsCollated | conversations/conversations.go:75-83 | An event of the client beyond as many of its signature as the server has is in the collated transcript |
| Transcripts.TiesKeepOrder | conversations/conversations.go:84-89 | Events of one time and one side stay in the order in which they came |
| Transcripts.ReplacementRunMeans | conversations/conversations.go:92-97 | A name stands for a replacement of a run if and only if it is "repl:" and the run |
| Transcripts.TerminalRunMeans | conversations/conversations.go:98-104 | A name is a marker of a run if and only if it is "run:", the run without a colon, a colon and anything |
| Transcripts.CoversExactly | conversations/conversations.go:105-127 | A replacement covers a fragment if and only if both are assistant texts of one run and the trimmed fragment is a proper part of the trimmed replacement |
| Transcripts.NothingLeftToDrop | conversations/conversations.go:105-144 | The merged transcript holds no fragment beside a replacement that covers it and no marker before another of its run |
| Conversations.MergedInOrder | conversations/conversations.go:84-90 | The merged transcript is in time order, ties putting what the server has first |
| Transcripts.InTimeOrder | conversations/conversations.go:84-90 | Read off the transcript: times never go back, and at one time an event the server has is not after one only the client has |
| Conversations.OneMarkerPerRun | conversations/conversations.go:98-144 | A run has a marker in the output if and only if some marker of it is not superseded as a fragment, and never two |
| Conversations.MarkerCanVanish | conversations/conversations.go:105-144 | A transcript whose run has a marker before merging and none after |
| Conversations.EveryDropAccounted | conversations/conversations.go:105-156 | The output is the collated transcript without certain positions; at each stands a fragment whose covering replacement survives, or a marker of a run of which a later position is kept |
| Conversations.MergeBack | conversations/conversations.go:68-156 | Merging any part of a merged transcript back into it returns it unchanged |
| Redaction.PointerParts | protocol/protocol.go:186-199 | The loop yields the reference tokens, or nothing for text that is not a pointer |
| Redaction.PartsInvertPrint | protocol/protocol.go:186-199 | Reading inverts the escaping of RFC 6901 for every list of tokens |
| Redaction.PartsExactly | protocol/protocol.go:186-199 | Every text that is empty or begins with a slash is a pointer, its parts are what stands between the slashes, read in one pass; no other text is |
| Redaction.UnescapeExactly | protocol/protocol.go:197 | The two replacing passes do what one pass over the token would, on every text |
| Redaction.Redact | protocol/protocol.go:167-184 | A text that is not a pointer leaves nothing half redacted; otherwise every pointer is applied to a copy, at the place that ItemRedacted and FieldRedacted name |
| Redaction.SlotOfDecimal | protocol/protocol.go:215-216 | The decimal number of an item names that item in every array that has it, and nothing in any other |
| Redaction.SlotExactly | protocol/protocol.go:215-216 | All tokens that name an item: its decimal number, after leading zeros and a plus sign if any, or a minus sign before zero |
| Redaction.ItemRedacted | protocol/protocol.go:214-223 | At an item number that item is marked or redacted inside, and every other item kept; past the end nothing changes |
| Redaction.FieldRedacted | protocol/protocol.go:204-213 | At a field name that field is marked or redacted inside, and none is added |
| Redaction.PrintedItem | protocol/protocol.go:167-224 | The same from the text of the pointer on |
| Redaction.RedactCommutes | protocol/protocol.go:200-224 | Redacting at two places in either order gives the same document, nested places included |
| Redaction.OrderIrrelevant | protocol/protocol.go:167-224 | The order of the pointers does not matter |
| Redaction.RedactionIdempotent | protocol/protocol.go:167-224 | Redacting again by any selection of the same pointers changes nothing |
| Redaction.NothingShowsThrough | protocol/protocol.go:200-224 | After redaction every pointer with a token leads to the marker or to nothing |
| Redaction.ChangesExactly | protocol/protocol.go:200-224 | A pointer changes the document if and only if it has a token and leads to something that is not the marker |
| Redaction.ApartUnchanged | protocol/protocol.go:200-224 | A value neither at, below nor above a pointer's place is unchanged |
| Redaction.RestUnchanged | protocol/protocol.go:167-224 | The same for a whole list of pointers |
| PropagationPlan.ResolveConflict | propagation/plan.go:86-109 | A conflict is settled as update, noop or conflict, never otherwise; ResolveMeans says which |
| PropagationPlan.ResolveMeans | propagation/plan.go:86-109 | Update exactly when the destination's own copy does not win and the revision is newer, the source wins, or it is the authority; noop exactly when the destination wins; and the reason |
| PropagationPlan.ValidatedExactly | propagation/model.go:63-102 | An envelope is valid if and only if its fields are there, its policy is known, its digest is empty or that of its payload and its secrets are distinct; only the digest is filled in |
| PropagationPlan.Diff | propagation/plan.go:47-84 | One item for every envelope and, with deletion, every stale key, sorted; which of the two errors happens and exactly when; PlannedExactly says which items |
| PropagationPlan.PlannedExactly | propagation/plan.go:47-109 | An item is in the plan if and only if it creates an envelope the destination lacks, updates, keeps or disputes one it has, each with its reason and revisions, or with deletion removes what only the destination has |
| PropagationPlan.PlanOrder | propagation/plan.go:78-83 | Items go by kind and then id in lexicographic order |
| PropagationPlan.PlanSource | propagation/plan.go:50-68 | The loop over the bundle stops exactly at an invalid envelope and otherwise yields each envelope's item |
| PropagationPlan.PlanDeletes | propagation/plan.go:69-77 | The loop over the destination yields one delete for every stale key in whatever order it goes |
| PropagationPlan.ItemsDistinct | propagation/plan.go:47-84 | With distinct keys no two items share a key |
| PropagationPlan.DiffDeterministic | propagation/plan.go:47-84 | The plan is in strict order of kind and id, so it does not depend on the order of the bundle or of map iteration |
| PropagationPlan.AppliedSource | propagation/plan.go:47-109 | After a plan is applied, an envelope that was in conflict still is, and every other one is a noop |
| PropagationPlan.InstalledExactly | propagation/plan.go:47-109 | After a plan is applied an envelope is installed, digest and revision, if it was missing or might replace what was there; otherwise nothing under its key has changed |
| PropagationPlan.DigestHeldExactly | propagation/plan.go:47-109 | The destination ends with an envelope's digest if and only if the two are not in dispute and the destination's own different copy does not win |
| PropagationPlan.DiffFixpoint | propagation/plan.go:47-109 | Diffing again after applying a plan gives only noops and conflicts, whoever the objects then belong to |
| PropagationRuntime.ApplyLocal | propagation/runtime.go:64-117 | A rejected bundle or a failing snapshot touches nothing; a complete bundle leaves exactly its states; a failed one restores every reversible key written, in reverse order, and each key ends as captured if a restore of it succeeded and as the steps left it otherwise; the count is that of successful restores, and the error text lists the failed ones |
| PropagationRuntime.WriteAll | propagation/runtime.go:86-109 | The loop stops at the first failure with exactly the earlier envelopes written and recorded |
| PropagationRuntime.RollBack | propagation/runtime.go:90-106 | The reverse loop, for every pattern of failing restores |
| PropagationRuntime.RollbackKeysExactly | propagation/runtime.go:89-97 | The keys restored are those written whose state before was absent or reversible, the last one first |
| PropagationRuntime.LastWriteStays | propagation/runtime.go:85-109 | What the steps leave under a key is its last write |
| PropagationRuntime.RestoredCountExactly | propagation/runtime.go:98-103 | The count is the number of restores that succeeded |
| PropagationRuntime.RestoreErrorsExactly | propagation/runtime.go:98-101 | The error text lists each failed restore with its key and error, in the order of the calls |
| PropagationRuntime.RevisionOrder | propagation/runtime.go:110-115 | Revisions are reported by kind and then id in lexicographic order |
| PropagationRuntime.FullRollback | propagation/runtime.go:79-106 | When all writes are restored, the store equals what it was if and only if every object under a written key is of a kind the bundle names; the count is the number of writes, repeated keys included |
| PropagationRuntime.NoSlashCaptures | propagation/runtime.go:75-95 | That condition holds whenever no kind contains a slash |
| PropagationRuntime.SlashLoses | propagation/runtime.go:75-95 | A store and a bundle of two envelopes whose second one fails: every restore succeeds and an object of the store is gone |
| PropagationRuntime.UnwrittenUnchanged | propagation/runtime.go:86-109 | A key no envelope names is never touched |
| PropagationTransaction.Execute | propagation/transaction.go:38-91 | One result per node in order, determined by what the node answered: validated and applied as it said, with its revisions or its error, rolled back exactly when a rollback call for it succeeded; every call goes to its node by name, each validated node is asked to apply once, and a rollback hands over that node's revisions; partial means live on some and not on all; with rollback every node applied before a failure is rolled back or shows an error; which rollbacks are attempted, in order |
| PropagationTransaction.AfterUndoMeans | propagation/transaction.go:64-76 | After any series of rollback calls a node counts as rolled back exactly when one succeeded, and shows an error exactly when it had one or one failed |
| PropagationTransaction.FirstFailureShown | propagation/transaction.go:70-74 | Of several failed rollbacks the first one is shown, unless the node had an error of its own |
| PropagationTransaction.UndoBeforeExactly | propagation/transaction.go:64-70 | One round goes through exactly the applied nodes before the failed one, in ascending order, each with its own revisions |
| PropagationTransaction.ApplyAddressed | propagation/transaction.go:56-61 | The Apply call of every validated node carries its name |
| PropagationTransaction.ValidateAll | propagation/transaction.go:46-55 | The validate phase reports each node's own verdict and goes on after a failure |
| PropagationTransaction.RollbackEarlier | propagation/transaction.go:64-76 | One round of rollback attempts every applied node before the failed one and leaves none of them silent |
| PropagationTransaction.CountStanding | propagation/transaction.go:82-88 | The count separates none, some and all of the nodes |
| PropagationTransaction.RolledBackPerFailure | propagation/transaction.go:56-81 | An applied node receives exactly one rollback call for each later failure |
| FanOut.InvStep | cluster/routing.go:57-90 | Every step of any task keeps the bound, one slot and one call per node |
| FanOut.InvHolds | cluster/routing.go:57-90 | That invariant holds in every state of every interleaving |
| FanOut.BoundedAndOnce | propagation/distributed.go:23-80 | At most the limit of callbacks runs at once, no node is called twice, and only tasks that gave up are not called |
| FanOut.Progress | cluster/routing.go:66-87 | Every task step brings the whole closer to its end, and some step is possible until all are over: no deadlock, no endless schedule |
| FanOut.OneResultEach | cluster/routing.go:57-90 | A complete run has exactly one result per node, cancelled or not, however results were collected |
| FanOut.ReportOrder | cluster/routing.go:88 | The reported list goes by node in lexicographic order |
| FanOut.NoBailWithoutCancel | propagation/distributed.go:33-38 | A task gives up only after a cancellation that it watches for |
| FanOut.ScheduleIndependent | cluster/routing.go:57-90 | For a callback that answers as a function of the node, all complete runs under all limits report one list, also with repeated nodes |
| Accounts.ValidateAccounts | auth/accounts.go:70-167 | Accepts exactly the documents that satisfy the declarative invariant |
| DocumentRules.ValidDocumentExactly | auth/accounts.go:70-167 | That invariant, place by place: versions, roles, accounts, each identity by itself, any two identities at different places, and an enabled administrator with an enabled password |
| Accounts.ValidateRoles | auth/accounts.go:78-95 | The role loop accepts exactly non-empty distinct ids, known capabilities and an intact administrator role |
| Accounts.AdmitIdentity | auth/accounts.go:118-158 | One identity is admitted exactly when it is complete and clashes with none before it |
| Accounts.AdmitAll | auth/accounts.go:117-158 | The identity loop accepts exactly when all identities so far are pairwise compatible, and finds an enabled password |
| Accounts.ValidateUsers | auth/accounts.go:96-163 | The account loop accepts exactly the valid accounts and counts an administrator exactly when one can log in with a password |
| Accounts.CheckRoles | auth/accounts.go:110-116 | Every role resolves, and whether one is the administrator role |
| Capabilities.EffectiveCapabilities | auth/accounts.go:169-193 | A key is granted if and only if the account is enabled and one of its roles names it or everything; the list is ["*"] or strictly ascending |
| Capabilities.CheckCapability | auth/accounts.go:195-202 | True exactly when the list holds the key or everything |
| Capabilities.DedupeStrings | auth/accounts.go:204-216 | The loop and the sort compute the list that DedupeMeaning determines |
| Capabilities.DedupeMeaning | auth/accounts.go:204-216 | The trimmed non-blank values, each once, strictly ascending |
| AccountEdits.CredentialEditsValid | auth/model.go:249-284 | A change of password, second factor or recovery codes keeps every valid document valid |
| AccountEdits.OneCopyUsed | auth/model.go:404-412 | Using a recovery code takes away one stored copy and nothing else |
| AccountEdits.SetRoleExactly | auth/model.go:487-516 | Setting a role is refused exactly for an unknown capability or a weakened administrator role; no account can be in the way |
| AccountModel.Model.Adopt | auth/model.go:76 | A model starts with memory equal to a valid store |
| AccountModel.Model.Load | auth/model.go:61-77 | Opening succeeds exactly for a stored document that loads and is valid |
| AccountModel.Model.Reload | auth/model.go:82-99 | Memory catches up with a valid store and is unchanged before one that is invalid or does not load |
| AccountModel.Model.Commit | auth/model.go:239-246 | Validate, save, swap as one transaction: memory and store change together or not at all |
| AccountModel.Model.CreateAccount | auth/model.go:188-220 | On success one enabled account is appended, field by field, with one enabled password; or one of the listed refusals applies and nothing changes; the invariant holds either way |
| AccountModel.Model.CreateInitialAdministrator | auth/model.go:179-186 | Works only on an empty document, with the exact reasons for refusal there, and leaves the one account, which can administer |
| AccountModel.FirstAdministratorExactly | auth/model.go:196-220 | On an empty document validation accepts the new administrator exactly when identifiers, hash and canonical user name are not empty |
| AccountModel.Model.UpdateAccount | auth/model.go:222-247 | On success that account has the trimmed name, the switch and the deduplicated roles, and nothing else has changed; or nothing changes; the invariant is kept |
| AccountModel.Model.SetPassword | auth/model.go:249-284 | On success each password identity with the two ids has the new hash and nothing else in the document has changed; fails only for a short password, missing randomness, no such password identity or a failed save: validation never refuses it |
| AccountModel.Model.AddIdentity | auth/model.go:286-314 | On success that account has one identity more, last, with trimmed name and address and an id drawn if it had none; or nothing changes; the invariant is kept |
| AccountModel.Model.SetIdentityTOTP | auth/model.go:327-359 | On success the second factor and the codes of the named password identities are set and nothing else has changed; fails only for a missing identity, one that is no password, or a failed save |
| AccountModel.Model.SetIdentityEnabled | auth/model.go:361-389 | On success the named identities have the switch and nothing else has changed; keeps the whole invariant, the last administrator included |
| AccountModel.Model.ConsumeRecoveryCode | auth/model.go:391-417 | Succeeds exactly when the code is stored and the save works, and then its first copy is gone and nothing else has changed; keeps the invariant without validating |
| AccountModel.Model.RemoveIdentity | auth/model.go:419-455 | On success that one identity is taken out and nothing else has changed; refused when it is missing, the last login, or needed by the invariant |
| AccountModel.RemovalRefusedExactly | auth/model.go:419-443 | A removal's own checks: no such account, no such identity, or the only password or google identity of its account |
| AccountModel.LoginRemains | auth/model.go:428-443 | After an allowed removal an account that had a password or google identity, enabled or not, keeps one |
| AccountModel.Model.DeleteAccount | auth/model.go:457-485 | Removes exactly that account, never the last one, and keeps the invariant; the exact reasons for refusal |
| AccountModel.Model.SetRole | auth/model.go:487-516 | One role has the trimmed name and the deduplicated capabilities and keeps its built-in mark, no other role changes, and they go by id in lexicographic order; the exact reasons for refusal |
| AccountModel.SoleAdministratorStays | auth/accounts.go:163-165 | Any edit of the only password administrator is refused unless the edited account still is one, and so is deleting it |
| AccountModel.ReviseIdentities | auth/model.go:261-272 | The nested index loop edits exactly the identities that the two ids name and reports whether there was one |
| AccountModel.FindCode | auth/model.go:395-404 | The three nested loops find the first copy of the code, or show that there is none |
| Failures.KeepAfter | auth/sessions.go:140-145 | Filtering a list into its own backing array keeps exactly the later times in order |
| Failures.AfterCounts | auth/sessions.go:139-147 | The recent failures are as many as the recorded times strictly later than the cutoff, each as often as recorded |
| Failures.LaterCutoff | auth/sessions.go:138-146 | Pruning at an earlier cutoff does not show at a later one |
| Failures.AgreePruned | auth/sessions.go:135-148 | Pruning one list keeps every list in agreement with its full history |
| Failures.AgreeFailed | auth/sessions.go:150-154 | Recording a failure keeps every list in agreement with its full history |
| Failures.AgreeForgotten | auth/sessions.go:195 | Forgetting an address keeps every list in agreement with its full history |
| Failures.FailureLog.Limited | auth/sessions.go:135-148 | Limited if and only if at least the maximum of the failures since the last session lie strictly inside the window, whatever was pruned before |
| Failures.FailureLog.Fail | auth/sessions.go:150-154 | Adds one failure to the history of its address and to no other |
| Failures.FailureLog.Forget | auth/sessions.go:195 | Opening a session forgets the failures of its address only |
| Sessions.SessionStore.constructor | auth/sessions.go:114-133 | Stored sessions that are live are taken over as they are, with defaults for options that are not positive |
| Sessions.WithDefaultsExactly | auth/sessions.go:69-104 | A positive option stays; the others become twelve hours, ten minutes, eight failures and 32 sessions |
| Sessions.SessionStore.Open | auth/sessions.go:114-133 | Opening fails exactly when there is a persistence that does not load, and starts empty without one |
| Sessions.SessionStore.Save | auth/sessions.go:372-381 | A failed save leaves the stored table as it was |
| Sessions.SessionStore.AuthenticatePassword | auth/sessions.go:156-167 | A limited address never reaches its credentials; with failures recorded this way there are never more recent ones than the limit |
| Sessions.EvictOldest | auth/sessions.go:179-193 | Evicts just enough sessions of the account, none newer than one that stays |
| Sessions.TrimmedUnique | auth/sessions.go:189-193 | With distinct creation times that determines which |
| Sessions.OneMoreFits | auth/sessions.go:190-194 | With one more session the account is within the cap, however many it had |
| Sessions.FewerWithinCap | auth/sessions.go:264-331 | Operations that only remove sessions keep every account within the cap |
| Sessions.SessionStore.CreateSession | auth/sessions.go:169-203 | The new session has its fields, the user agent trimmed; of other accounts exactly the expired sessions go; after eviction the account is within the cap; from a start within the cap every account stays so; the address's failures are forgotten; memory keeps the session even when saving fails |
| Sessions.SessionStore.Get | auth/sessions.go:248-262 | A session is returned exactly when it is there, not expired and its principal active; otherwise it is removed and the table saved |
| Sessions.SessionStore.Revoke | auth/sessions.go:264-295 | Exactly the condemned sessions go, from memory and, when saving works, from what is stored |
| Sessions.SessionStore.RevokeAccount | auth/sessions.go:271-280 | The account has none left and every other account all of its own, in what is stored too when saving works |
| Sessions.SessionStore.RevokeSession | auth/sessions.go:319-330 | Succeeds exactly when a session of the account is displayed that way, removes a single one and saves; otherwise nothing changes |
| Sessions.SessionStore.SnapshotSessions | auth/sessions.go:352-370 | The copy is the table without what has expired, and only a change is saved |
| Sorting.StableSortSorted | conversations/conversations.go:84-89 | A stable sort by a strict weak order is sorted |
| Sorting.StableSortStable | conversations/conversations.go:84-89 | A stable sort keeps ties in the order they came in |
| Sorting.SortedUnique | cluster/routing.go:88 | Sorting gives one result whatever the input order when elements that tie are equal |

## Left out

- Raft (election, replication, quorum, log compaction): taken as one committed log.
- Sockets, TLS, bbolt, HTTP, cookies, HTML and files: no part of this model.
- The inside of SHA-256, HMAC and encoding/json: free constructors and documents; field names of JSON objects match exactly, where encoding/json ignores case.
- Snapshots with a nil result in the applied table, which only a crafted snapshot can hold.
- ReplicatedCluster.VotersNeverDiverge: is about runs in which every append goes through `Node.Propose`; the forwarded path proposes without the gate (replication/node.go:419-431).
- The polling loop, the timeout and the context of `WaitApplied`: only its test is modelled.
- Races inside one call, such as a clock read before the lock is taken: every call is one atomic step.
- FanOut.ScheduleIndependent: goroutines, the semaphore and the mutex are steps of tasks, and a callback that panics is not modelled.
- Redaction.Redact: works on values, so that the tree is shared or changed in place is not captured.
- Redaction.PointerParts: array tokens follow strconv.Atoi, which takes leading zeros and a plus sign where section 4 of RFC 6901 does not.
- PropagationPlan.Diff: a destination key without a slash is an error value where the program panics; sorting a plan's dependencies in place is left out.
- PropagationRuntime.ApplyLocal: the outcome of the preview is an argument, a nil adapter is left out.
- PropagationTransaction.Execute: a nil executor, plan identifiers and timestamps are left out.
- Signing and verifying plans, schedules, targets, secrets and product profiles: field checks around the parts above.
- Failures.FailureLog.Limited: the filter runs on an array as the program's does, but between calls the lists are values, so two lists sharing one backing array is not captured.
- Sessions.SessionStore.Revoke: stands for logout and the revoking calls; `ListSessions`, which deletes expired entries without saving, challenges and the CSRF check are left out.
- AccountModel.Model.CreateAccount: identifiers, time and the salted hash are arguments; a password's length is counted in characters.
- Accounts.ValidateAccounts: error texts are kinds of error, which of several faults is named first is not stated, and case folding is an arbitrary function.
- Password verification, lookups that only read, and account cloning, which values need not do.
- `IsPartial`, `Normalize`, `CheckCapacity`, field validation and the other one-branch helpers of the modelled files: they would add only easy members.
