/** Replicated operations and their canonical log encoding (replication/operation.go). */
module Operations {
  import opened Wrappers
  import opened JsonText
  import Text

  const VERSION := 2

  const KIND_SET := "kv.set"
  const KIND_DELETE := "kv.delete"

  datatype Operation = Operation(
    id: string, product: string, version: int, kind: string,
    objectKind: string, objectId: string, revision: int, domainRevision: int,
    payload: RawJson, originNode: string, actor: string, timestamp: string)

  datatype OpError = InvalidOperation | InvalidPayload | Undecodable

  /** What the consensus log stores: the encoding of an operation, or bytes that are not one. */
  datatype LogData = Encoded(op: Operation) | Garbage

  predicate SupportedVersion(v: int) { 1 <= v <= VERSION }

  predicate Valid(op: Operation) {
    && !Text.Blank(op.id)
    && !Text.Blank(op.product)
    && SupportedVersion(op.version)
    && !Text.Blank(op.kind)
    && !Text.Blank(op.objectId)
    && !op.payload.Blank?
  }

  predicate KnownKind(kind: string) { kind == KIND_SET || kind == KIND_DELETE }

  /** The digest covers the payload only. */
  function DigestOf(op: Operation): Option<Digest> {
    match NormalizeJSON(op.payload)
    case Some(p) => Some(Sha256(p))
    case None => None
  }

  function Encode(op: Operation, now: string): Result<LogData, OpError> {
    if !Valid(op) then Err(InvalidOperation)
    else match NormalizeJSON(op.payload)
      case None => Err(InvalidPayload)
      case Some(p) =>
        Ok(Encoded(op.(payload := p, timestamp := if op.timestamp == "" then now else op.timestamp)))
  }

  function Decode(data: LogData): Result<Operation, OpError> {
    match data
    case Garbage => Err(Undecodable)
    case Encoded(op) => if Valid(op) then Ok(op) else Err(InvalidOperation)
  }

  /** json.Unmarshal of the payload into a struct with one string field "value". */
  function ValueField(payload: RawJson): Option<string> {
    match payload
    case Document(Null, _) => Some("")
    case Document(Obj(fields), _) =>
      if "value" !in fields || fields["value"].Null? then Some("")
      else if fields["value"].Str? then Some(fields["value"].s)
      else None
    case _ => None
  }

  /** Decoding undoes encoding, up to the canonical payload and the leader's timestamp; the digest
      survives; and encoding what the log holds again gives the same bytes at any later time. */
  lemma EncodeDecode(op: Operation, now: string, later: string)
    requires now != ""
    ensures Encode(op, now).Ok? <==> Valid(op) && op.payload.Document?
    ensures Encode(op, now).Ok? ==>
      var logged := Decode(Encode(op, now).value);
      && logged.Ok?
      && op == logged.value.(payload := op.payload, timestamp := op.timestamp)
      && logged.value.timestamp == (if op.timestamp == "" then now else op.timestamp)
      && logged.value.payload == Document(op.payload.value, "")
      && DigestOf(logged.value) == DigestOf(op)
      && ValueField(logged.value.payload) == ValueField(op.payload)
      && Encode(logged.value, later) == Encode(op, now)
  {
  }

  /** What makes an operation valid, in the words of the checks. */
  lemma ValidExactly(op: Operation)
    ensures Valid(op) <==>
      && Text.TrimSpace(op.id) != "" && Text.TrimSpace(op.product) != ""
      && (op.version == 1 || op.version == 2)
      && Text.TrimSpace(op.kind) != "" && Text.TrimSpace(op.objectId) != ""
      && (op.payload.Document? || op.payload.Malformed?)
  {
    Text.TrimSpaceEmpty(op.id);
    Text.TrimSpaceEmpty(op.product);
    Text.TrimSpaceEmpty(op.kind);
    Text.TrimSpaceEmpty(op.objectId);
  }

  /** Digests agree exactly when the payloads are one document, however each is spelled, and nothing else
      of the operations matters. */
  lemma SameDigest(a: Operation, b: Operation)
    requires DigestOf(a).Some? || DigestOf(b).Some?
    ensures DigestOf(a) == DigestOf(b) <==> a.payload.Document? && b.payload.Document? && a.payload.value == b.payload.value
  {
  }

  /** The value that a payload sets: the text under "value", whatever else the object holds; a payload
      without one sets the empty text, and one that is no object or holds something else is refused. */
  lemma ValueOfPayload(fields: map<string, Json>, value: string, spelling: string)
    ensures ValueField(Document(Obj(fields["value" := Str(value)]), spelling)) == Some(value)
    ensures ValueField(Document(Obj(fields - {"value"}), spelling)) == Some("")
    ensures ValueField(Document(Obj(fields["value" := Bool(true)]), spelling)) == None
    ensures ValueField(Document(Str(value), spelling)) == None
  {
  }
}
