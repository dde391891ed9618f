/** Versioned, integrity-checked snapshots of the state machine (replication/snapshot.go). */
module Snapshots {
  import opened Wrappers
  import opened Operations
  import opened KvFsm

  const SNAPSHOT_FORMAT_VERSION := 1

  /** Every field of the envelope but its integrity digest. */
  datatype Content = Content(formatVersion: int, replicationVersion: int, fsm: Fsm)

  /** The integrity field: the SHA-256 sum of some content, or any other text. */
  datatype Integrity = Sum(content: Content) | OtherText(text: string)

  datatype SnapshotBytes = Envelope(content: Content, integrity: Integrity) | Unparsable

  datatype SnapshotError = BadJson | IntegrityMismatch | BadFormat | BadReplicationVersion | NewerThanSupported

  function EncodeSnapshot(c: Content): Result<SnapshotBytes, SnapshotError> {
    if c.formatVersion != SNAPSHOT_FORMAT_VERSION then Err(BadFormat)
    else if !SupportedVersion(c.replicationVersion) then Err(BadReplicationVersion)
    else Ok(Envelope(c, Sum(c)))
  }

  function DecodeSnapshot(b: SnapshotBytes): Result<Content, SnapshotError> {
    match b
    case Unparsable => Err(BadJson)
    case Envelope(c, integrity) => if integrity != Sum(c) then Err(IntegrityMismatch) else Ok(c)
  }

  /** What a machine that accepts versions 1..supported makes of snapshot bytes. */
  function Accept(b: SnapshotBytes, supported: int): Result<Fsm, SnapshotError> {
    match DecodeSnapshot(b)
    case Err(e) => Err(e)
    case Ok(c) =>
      if c.formatVersion != SNAPSHOT_FORMAT_VERSION then Err(BadFormat)
      else if !SupportedVersion(c.replicationVersion) then Err(BadReplicationVersion)
      else if c.replicationVersion > supported then Err(NewerThanSupported)
      else Ok(c.fsm)
  }

  /** Snapshot followed by Persist, on a machine that accepts versions 1..supported. */
  function Take(f: Fsm, supported: int): Result<SnapshotBytes, SnapshotError> {
    EncodeSnapshot(Content(SNAPSHOT_FORMAT_VERSION, supported, f))
  }

  /** A snapshot restores exactly the state it was taken of, on every machine at the producer's level
      or above, and is refused below it even when no entry needed that level. Changing anything in
      the envelope but the digest makes it unacceptable everywhere. */
  lemma SnapshotRoundTrip(f: Fsm, producer: int, receiver: int, forged: Content)
    requires SupportedVersion(producer)
    ensures Take(f, producer).Ok?
    ensures Accept(Take(f, producer).value, receiver)
         == if producer <= receiver then Ok(f) else Err(NewerThanSupported)
    ensures forged != Content(SNAPSHOT_FORMAT_VERSION, producer, f) ==>
      Accept(Take(f, producer).value.(content := forged), receiver) == Err(IntegrityMismatch)
  {
  }

  /** What a machine restores from bytes, whoever made them: the state inside an intact envelope of this
      format and of a replication version that both the build and the machine support. */
  lemma AcceptExactly(b: SnapshotBytes, supported: int, f: Fsm)
    ensures Accept(b, supported) == Ok(f) <==>
      && b.Envelope? && b.content.fsm == f && b.integrity == Sum(b.content)
      && b.content.formatVersion == 1
      && 1 <= b.content.replicationVersion <= 2 && b.content.replicationVersion <= supported
  {
  }
}
