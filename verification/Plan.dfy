/** Planning a propagation (propagation/plan.go): the difference between a source bundle and a
    destination, as a sorted list of changes. */
module PropagationPlan {
  import opened Wrappers
  import opened JsonText
  import opened Sequences
  import opened Sorting
  import Text

  datatype ConflictPolicy =
    | Reject | SourceWins | DestinationWins | Manual | Authoritative | Merge
    | OtherPolicy(text: string)

  /** A digest field: empty, a SHA-256 sum, or any other text. */
  datatype DigestText = NoDigest | Sum(digest: Digest) | OtherText(text: string)

  datatype Envelope = Envelope(
    kind: string, id: string, schemaVersion: int, revision: int, sourceNode: string, target: string,
    digest: DigestText, conflict: ConflictPolicy, secrets: seq<string>, payload: RawJson)

  datatype Existing = Existing(
    kind: string, id: string, digest: DigestText, owner: string, revision: int, schemaVersion: int)

  datatype Change = Create | Update | Delete | Noop | Conflict

  datatype PlanItem = PlanItem(
    kind: string, id: string, change: Change, reason: string, fromRevision: int, toRevision: int)

  /** KeyWithoutSlash stands for the run-time panic on a destination key that has no "/". */
  datatype DiffError = InvalidEnvelope | KeyWithoutSlash

  function Key(kind: string, id: string): string { kind + "/" + id }

  function KeyOf(e: Envelope): string { Key(e.kind, e.id) }

  function ItemKey(p: PlanItem): string { Key(p.kind, p.id) }

  /** Validate, on a copy of the envelope: it fills in an empty digest. */
  function Validated(e: Envelope): Option<Envelope> {
    if Text.Blank(e.kind) || Text.Blank(e.id) then None
    else if e.schemaVersion < 1 || e.revision < 1 then None
    else if Text.Blank(e.sourceNode) || Text.Blank(e.target) then None
    else if e.conflict.OtherPolicy? then None
    else match NormalizeJSON(e.payload)
      case None => None
      case Some(canonical) =>
        var sum := Sum(Sha256(canonical));
        if e.digest != NoDigest && e.digest != sum then None
        else if "" in e.secrets || !Distinct(e.secrets) then None
        else Some(e.(digest := sum))
  }

  function ResolveConflict(e: Envelope, d: Existing): (r: (Change, string))
    ensures r.0 in {Update, Noop, Conflict}
  {
    if e.revision <= d.revision then
      match e.conflict
      case SourceWins => (Update, "source wins despite destination revision")
      case DestinationWins => (Noop, "destination wins")
      case Authoritative =>
        if d.owner == "" || d.owner == e.sourceNode then (Update, "authoritative source")
        else (Conflict, "different authoritative owner")
      case Merge => (Conflict, "merge requires an object-specific merge adapter")
      case Manual => (Conflict, "manual approval required")
      case _ => (Conflict, "destination is same or newer revision")
    else if e.conflict == DestinationWins then (Noop, "destination wins")
    else (Update, "newer source revision")
  }

  /** What a valid envelope's digest has to be. */
  function DigestOf(e: Envelope): DigestText {
    match e.payload
    case Document(value, _) => Sum(Sha256(Document(value, CANONICAL)))
    case _ => NoDigest
  }

  /** Validation asks for these, and fills in the digest and nothing else. */
  lemma ValidatedExactly(e: Envelope)
    ensures Validated(e).Some? <==>
      && Text.TrimSpace(e.kind) != "" && Text.TrimSpace(e.id) != ""
      && Text.TrimSpace(e.sourceNode) != "" && Text.TrimSpace(e.target) != ""
      && 1 <= e.schemaVersion && 1 <= e.revision
      && e.conflict in {Reject, SourceWins, DestinationWins, Manual, Authoritative, Merge}
      && e.payload.Document? && e.digest in {NoDigest, DigestOf(e)}
      && (forall i :: 0 <= i < |e.secrets| ==> e.secrets[i] != "")
      && (forall i, j :: 0 <= i < j < |e.secrets| ==> e.secrets[i] != e.secrets[j])
    ensures Validated(e).Some? ==> Validated(e).value == e.(digest := DigestOf(e))
  {
    Text.TrimSpaceEmpty(e.kind);
    Text.TrimSpaceEmpty(e.id);
    Text.TrimSpaceEmpty(e.sourceNode);
    Text.TrimSpaceEmpty(e.target);
  }

  type Destination = map<string, Existing>

  /** The item of a valid envelope. */
  function SourceItem(e: Envelope, dest: Destination): (p: PlanItem)
    requires Validated(e).Some?
    ensures p.kind == e.kind && p.id == e.id && p.change != Delete
  {
    var v := Validated(e).value;
    if KeyOf(e) !in dest then PlanItem(e.kind, e.id, Create, "", 0, e.revision)
    else
      var d := dest[KeyOf(e)];
      if d.digest == v.digest then PlanItem(e.kind, e.id, Noop, "", d.revision, e.revision)
      else
        var (change, reason) := ResolveConflict(v, d);
        PlanItem(e.kind, e.id, change, reason, d.revision, e.revision)
  }

  function DeleteItem(key: string, d: Existing): (p: PlanItem)
    requires '/' in key
    ensures ItemKey(p) == key && p.change == Delete
  {
    var i := Text.IndexOf(key, '/');
    assert key == key[..i] + "/" + key[i + 1..];
    PlanItem(key[..i], key[i + 1..], Delete, "", d.revision, 0)
  }

  predicate AllValid(source: seq<Envelope>) {
    forall e :: e in source ==> Validated(e).Some?
  }

  function Keys(source: seq<Envelope>): set<string> { set e | e in source :: KeyOf(e) }

  function SourceItems(source: seq<Envelope>, dest: Destination): (items: seq<PlanItem>)
    requires AllValid(source)
    ensures |items| == |source| && forall i :: 0 <= i < |source| ==> items[i] == SourceItem(source[i], dest)
  {
    seq(|source|, i requires 0 <= i < |source| => SourceItem(source[i], dest))
  }

  /** The destination keys that deletion concerns. */
  function Stale(source: seq<Envelope>, dest: Destination, allowDelete: bool): set<string> {
    if allowDelete then dest.Keys - Keys(source) else {}
  }

  predicate Splittable(keys: set<string>) { forall k :: k in keys ==> '/' in k }

  function DeleteItems(keys: set<string>, dest: Destination): set<PlanItem>
    requires Splittable(keys) && keys <= dest.Keys
  {
    set k | k in keys :: DeleteItem(k, dest[k])
  }

  function ItemLess(): (PlanItem, PlanItem) -> bool {
    (a: PlanItem, b: PlanItem) => if a.kind == b.kind then Text.Less(a.id, b.id) else Text.Less(a.kind, b.kind)
  }

  /** A plan: one item for each envelope and each stale key, sorted. */
  ghost predicate IsDiff(items: seq<PlanItem>, source: seq<Envelope>, dest: Destination, allowDelete: bool)
    requires AllValid(source) && Splittable(Stale(source, dest, allowDelete))
  {
    && Sorted(ItemLess(), items)
    && multiset(items) == multiset(SourceItems(source, dest))
                        + multiset(DeleteItems(Stale(source, dest, allowDelete), dest))
  }

  method Diff(source: seq<Envelope>, dest: Destination, allowDelete: bool)
    returns (r: Result<seq<PlanItem>, DiffError>)
    ensures !AllValid(source) ==> r == Err(InvalidEnvelope)
    ensures AllValid(source) && !Splittable(Stale(source, dest, allowDelete)) ==> r == Err(KeyWithoutSlash)
    ensures AllValid(source) && Splittable(Stale(source, dest, allowDelete)) ==>
      r.Ok? && IsDiff(r.value, source, dest, allowDelete)
  {
    var out, seen, ok := PlanSource(source, dest);
    if !ok { return Err(InvalidEnvelope); }
    var deletes: seq<PlanItem> := [];
    if allowDelete {
      deletes, ok := PlanDeletes(dest.Keys - seen, dest);
      if !ok { return Err(KeyWithoutSlash); }
    }
    assert multiset(deletes) == multiset(DeleteItems(Stale(source, dest, allowDelete), dest));
    ItemLessIsOrder();
    out := SortSlice(ItemLess(), out + deletes);
    return Ok(out);
  }

  /** The loop over the bundle. */
  method PlanSource(source: seq<Envelope>, dest: Destination) returns (out: seq<PlanItem>, seen: set<string>, ok: bool)
    ensures ok <==> AllValid(source)
    ensures ok ==> out == SourceItems(source, dest) && seen == Keys(source)
  {
    out, seen := [], {};
    for i := 0 to |source|
      invariant AllValid(source[..i]) && out == SourceItems(source[..i], dest) && seen == Keys(source[..i])
    {
      var e := source[i];
      if Validated(e).None? { return out, seen, false; }
      Snoc(source[..i], e, dest);
      TakeSnoc(source, i);
      seen := seen + {KeyOf(e)};
      out := out + [SourceItem(e, dest)];
    }
    assert source[..|source|] == source;
    return out, seen, true;
  }

  lemma Snoc(source: seq<Envelope>, e: Envelope, dest: Destination)
    requires AllValid(source) && Validated(e).Some?
    ensures AllValid(source + [e])
    ensures SourceItems(source + [e], dest) == SourceItems(source, dest) + [SourceItem(e, dest)]
    ensures Keys(source + [e]) == Keys(source) + {KeyOf(e)}
  {
  }

  /** The loop over the destination map, in whatever order it is iterated. */
  method PlanDeletes(stale: set<string>, dest: Destination) returns (deletes: seq<PlanItem>, ok: bool)
    requires stale <= dest.Keys
    ensures ok <==> Splittable(stale)
    ensures ok ==> multiset(deletes) == multiset(DeleteItems(stale, dest))
  {
    deletes := [];
    var todo, done: set<string> := stale, {};
    while todo != {}
      invariant done !! todo && done + todo == stale && Planned(deletes, done, dest)
      decreases todo
    {
      var k :| k in todo;
      if '/' !in k { return deletes, false; }
      PlannedSnoc(deletes, done, k, dest);
      deletes := deletes + [DeleteItem(k, dest[k])];
      todo, done := todo - {k}, done + {k};
    }
    assert done == stale;
    return deletes, true;
  }

  /** The deletes planned for these keys. */
  ghost predicate Planned(deletes: seq<PlanItem>, keys: set<string>, dest: Destination) {
    keys <= dest.Keys && Splittable(keys) && multiset(deletes) == multiset(DeleteItems(keys, dest))
  }

  lemma PlannedSnoc(deletes: seq<PlanItem>, keys: set<string>, k: string, dest: Destination)
    requires Planned(deletes, keys, dest) && k in dest && k !in keys && '/' in k
    ensures Planned(deletes + [DeleteItem(k, dest[k])], keys + {k}, dest)
  {
    DeleteItemsGrow(keys, k, dest);
    GrowBag(DeleteItems(keys, dest), DeleteItem(k, dest[k]));
  }

  lemma GrowBag<T>(s: set<T>, x: T)
    requires x !in s
    ensures multiset(s + {x}) == multiset(s) + multiset{x}
  {
  }

  lemma DeleteItemsGrow(keys: set<string>, k: string, dest: Destination)
    requires Splittable(keys + {k}) && keys + {k} <= dest.Keys && k !in keys
    ensures DeleteItem(k, dest[k]) !in DeleteItems(keys, dest)
    ensures DeleteItems(keys + {k}, dest) == DeleteItems(keys, dest) + {DeleteItem(k, dest[k])}
  {
  }

  lemma ItemLessIsOrder()
    ensures StrictWeakOrder(ItemLess())
  {
    var less := ItemLess();
    forall a, b | less(a, b) ensures !less(b, a) {
      if a.kind == b.kind { Text.LessAsymmetric(a.id, b.id); } else { Text.LessAsymmetric(a.kind, b.kind); }
    }
    forall a, b, c | less(a, c) ensures less(a, b) || less(b, c) {
      Text.LessTotal(a.kind, b.kind);
      Text.LessTotal(a.id, b.id);
      if b.kind != c.kind && Text.Less(b.kind, a.kind) && a.kind != c.kind { Text.LessTransitive(b.kind, a.kind, c.kind); }
      if b.id != c.id && Text.Less(b.id, a.id) && less(a, c) && a.kind == b.kind == c.kind {
        Text.LessTransitive(b.id, a.id, c.id);
      }
    }
  }

  // ----- Order and determinism ------------------------------------------------------------------

  /** No two envelopes of the bundle have one key. */
  predicate DistinctKeys(source: seq<Envelope>) {
    forall i, j :: 0 <= i < j < |source| ==> KeyOf(source[i]) != KeyOf(source[j])
  }

  ghost predicate FromSource(source: seq<Envelope>, dest: Destination, p: PlanItem)
    requires AllValid(source)
  {
    exists e :: e in source && p == SourceItem(e, dest)
  }

  ghost predicate FromStale(source: seq<Envelope>, dest: Destination, allowDelete: bool, p: PlanItem)
    requires Splittable(Stale(source, dest, allowDelete))
  {
    exists k :: k in Stale(source, dest, allowDelete) && p == DeleteItem(k, dest[k])
  }

  lemma InSourceItems(source: seq<Envelope>, dest: Destination, p: PlanItem)
    requires AllValid(source)
    ensures p in SourceItems(source, dest) <==> FromSource(source, dest, p)
  {
    var items := SourceItems(source, dest);
    if p in items {
      var i :| 0 <= i < |items| && items[i] == p;
      assert source[i] in source;
    }
    if e :| e in source && p == SourceItem(e, dest) {
      var i :| 0 <= i < |source| && source[i] == e;
      assert items[i] == p;
    }
  }

  /** An item of a plan belongs to an envelope or to a stale key. */
  lemma ItemSource(items: seq<PlanItem>, source: seq<Envelope>, dest: Destination, allowDelete: bool, p: PlanItem)
    requires AllValid(source) && Splittable(Stale(source, dest, allowDelete)) && IsDiff(items, source, dest, allowDelete)
    ensures p in items <==> FromSource(source, dest, p) || FromStale(source, dest, allowDelete, p)
  {
    InSourceItems(source, dest, p);
    assert p in items <==> p in multiset(items);
    assert p in multiset(SourceItems(source, dest)) <==> p in SourceItems(source, dest);
  }

  // ----- What is planned ------------------------------------------------------------------------

  /** The source may replace what the destination holds: its policy does not leave the
      destination alone, and it has the newer revision, or wins, or is the authority the object belongs to or may take. */
  predicate MayReplace(e: Envelope, d: Existing) {
    && e.conflict != DestinationWins
    && (e.revision > d.revision || e.conflict == SourceWins || (e.conflict == Authoritative && d.owner in {"", e.sourceNode}))
  }

  /** What is planned for an envelope, by what the destination holds under its key. */
  predicate PlannedFor(p: PlanItem, e: Envelope, dest: Destination) {
    var key := e.kind + "/" + e.id;
    && p.kind == e.kind && p.id == e.id && p.toRevision == e.revision
    && p.fromRevision == (if key in dest then dest[key].revision else 0)
    && (p.change == Create <==> key !in dest)
    && (p.change == Update <==> key in dest && dest[key].digest != DigestOf(e) && MayReplace(e, dest[key]))
    && (p.change == Noop <==> key in dest && (dest[key].digest == DigestOf(e) || e.conflict == DestinationWins))
    && (p.change == Conflict <==>
          key in dest && dest[key].digest != DigestOf(e) && e.conflict != DestinationWins && !MayReplace(e, dest[key]))
    && p.reason ==
      if key !in dest || dest[key].digest == DigestOf(e) then ""
      else if e.conflict == DestinationWins then "destination wins"
      else if e.revision > dest[key].revision then "newer source revision"
      else Reason(e.conflict, dest[key].owner in {"", e.sourceNode})
  }

  /** Why a policy settles a revision that is not newer. */
  function Reason(policy: ConflictPolicy, mayTake: bool): string {
    if policy == SourceWins then "source wins despite destination revision"
    else if policy == Authoritative then if mayTake then "authoritative source" else "different authoritative owner"
    else if policy == Merge then "merge requires an object-specific merge adapter"
    else if policy == Manual then "manual approval required"
    else "destination is same or newer revision"
  }

  lemma SourceItemMeans(e: Envelope, dest: Destination, p: PlanItem)
    requires Validated(e).Some?
    ensures p == SourceItem(e, dest) <==> PlannedFor(p, e, dest)
  {
    SourceItemPlanned(e, dest);
    if PlannedFor(p, e, dest) { PlannedOnce(p, SourceItem(e, dest), e, dest); }
  }

  lemma PlannedOnce(p: PlanItem, q: PlanItem, e: Envelope, dest: Destination)
    requires PlannedFor(p, e, dest) && PlannedFor(q, e, dest)
    ensures p == q
  {
  }

  lemma SourceItemPlanned(e: Envelope, dest: Destination)
    requires Validated(e).Some?
    ensures PlannedFor(SourceItem(e, dest), e, dest)
  {
    ValidatedExactly(e);
    if KeyOf(e) in dest { ResolveMeans(e, dest[KeyOf(e)], Validated(e).value); }
  }

  /** A difference under one key, settled by the policy. */
  lemma ResolveMeans(e: Envelope, d: Existing, v: Envelope)
    requires v == e.(digest := v.digest) && !e.conflict.OtherPolicy?
    ensures var (change, reason) := ResolveConflict(v, d);
      && (change == Update <==> MayReplace(e, d))
      && (change == Noop <==> e.conflict == DestinationWins)
      && (change == Conflict <==> e.conflict != DestinationWins && !MayReplace(e, d))
      && reason == if e.conflict == DestinationWins then "destination wins"
                   else if e.revision > d.revision then "newer source revision"
                   else Reason(e.conflict, d.owner in {"", e.sourceNode})
  {
  }

  lemma DeleteItemMeans(key: string, d: Existing, p: PlanItem)
    requires '/' in key
    ensures p == DeleteItem(key, d) <==>
      p.kind + "/" + p.id == key && '/' !in p.kind && p == PlanItem(p.kind, p.id, Delete, "", d.revision, 0)
  {
    if p.kind + "/" + p.id == key && '/' !in p.kind {
      assert key[|p.kind|] == '/' && key[..|p.kind|] == p.kind && key[|p.kind| + 1..] == p.id;
      Text.IndexOfUnique(key, '/', |p.kind|);
    }
  }

  /** The whole plan: for each envelope of the bundle the item that creates it where the destination
      lacks it, and replaces, keeps or disputes what is there; with deletion, for each key that only
      the destination has, its removal, the kind ending at the first slash; and nothing else. */
  lemma PlannedExactly(items: seq<PlanItem>, source: seq<Envelope>, dest: Destination, allowDelete: bool, p: PlanItem)
    requires AllValid(source) && Splittable(Stale(source, dest, allowDelete)) && IsDiff(items, source, dest, allowDelete)
    ensures p in items <==>
      || (exists e :: e in source && PlannedFor(p, e, dest))
      || (allowDelete && Removes(p, dest) && forall e :: e in source ==> e.kind + "/" + e.id != p.kind + "/" + p.id)
  {
    ItemSource(items, source, dest, allowDelete, p);
    forall e | e in source ensures p == SourceItem(e, dest) <==> PlannedFor(p, e, dest) { SourceItemMeans(e, dest, p); }
    StaleItem(source, dest, allowDelete, p);
  }

  /** p removes an object of the destination. */
  ghost predicate Removes(p: PlanItem, dest: Destination) {
    var key := p.kind + "/" + p.id;
    key in dest && '/' !in p.kind && p == PlanItem(p.kind, p.id, Delete, "", dest[key].revision, 0)
  }

  lemma StaleItem(source: seq<Envelope>, dest: Destination, allowDelete: bool, p: PlanItem)
    requires Splittable(Stale(source, dest, allowDelete))
    ensures FromStale(source, dest, allowDelete, p) <==>
      allowDelete && Removes(p, dest) && forall e :: e in source ==> e.kind + "/" + e.id != p.kind + "/" + p.id
  {
    var key := p.kind + "/" + p.id;
    if FromStale(source, dest, allowDelete, p) {
      var k :| k in Stale(source, dest, allowDelete) && p == DeleteItem(k, dest[k]);
      DeleteItemMeans(k, dest[k], p);
      forall e | e in source ensures KeyOf(e) != key { assert KeyOf(e) in Keys(source); }
    }
    if allowDelete && Removes(p, dest) && forall e :: e in source ==> e.kind + "/" + e.id != key {
      assert '/' in key by { assert key[|p.kind|] == '/'; }
      DeleteItemMeans(key, dest[key], p);
      assert forall e :: e in source ==> KeyOf(e) != key;
    }
  }

  /** A plan goes by kind and then by id, each in lexicographic order. */
  lemma PlanOrder(items: seq<PlanItem>, source: seq<Envelope>, dest: Destination, allowDelete: bool, i: nat, j: nat)
    requires AllValid(source) && Splittable(Stale(source, dest, allowDelete)) && IsDiff(items, source, dest, allowDelete)
    requires i < j < |items|
    ensures items[i].kind == items[j].kind || Text.Precedes(items[i].kind, items[j].kind)
    ensures items[i].kind == items[j].kind ==>
      items[i].id == items[j].id || Text.Precedes(items[i].id, items[j].id)
  {
    var a, b := items[i], items[j];
    assert !ItemLess()(b, a);
    Text.LessTotal(a.kind, b.kind);
    Text.LessTotal(a.id, b.id);
    Text.LessExactly(a.kind, b.kind);
    Text.LessExactly(a.id, b.id);
  }

  lemma ItemCountedOnce(items: seq<PlanItem>, source: seq<Envelope>, dest: Destination, allowDelete: bool, p: PlanItem)
    requires AllValid(source) && Splittable(Stale(source, dest, allowDelete)) && IsDiff(items, source, dest, allowDelete)
    requires DistinctKeys(source)
    ensures multiset(items)[p] <= 1
  {
    SourceCountedOnce(source, dest, p);
    InSourceItems(source, dest, p);
    var a, b := SourceItems(source, dest), DeleteItems(Stale(source, dest, allowDelete), dest);
    assert multiset(items)[p] == multiset(a)[p] + multiset(b)[p];
    assert p in b ==> p.change == Delete;
    assert p in a ==> p.change != Delete;
    assert multiset(a)[p] > 0 ==> p in a;
  }

  lemma SourceCountedOnce(source: seq<Envelope>, dest: Destination, p: PlanItem)
    requires AllValid(source) && DistinctKeys(source)
    ensures multiset(SourceItems(source, dest))[p] <= 1
  {
    var a := SourceItems(source, dest);
    forall i, j | 0 <= i < j < |a| ensures a[i] != a[j] {
      assert KeyOf(source[i]) != KeyOf(source[j]);
    }
    CountAtMostOne(a, p);
  }

  /** With distinct keys a plan has no two items with one key. */
  lemma ItemsDistinct(items: seq<PlanItem>, source: seq<Envelope>, dest: Destination, allowDelete: bool)
    requires AllValid(source) && Splittable(Stale(source, dest, allowDelete)) && IsDiff(items, source, dest, allowDelete)
    requires DistinctKeys(source)
    ensures forall i, j :: 0 <= i < j < |items| ==> ItemKey(items[i]) != ItemKey(items[j])
  {
    forall i, j | 0 <= i < j < |items| ensures ItemKey(items[i]) != ItemKey(items[j]) {
      ItemSource(items, source, dest, allowDelete, items[i]);
      ItemSource(items, source, dest, allowDelete, items[j]);
      ItemCountedOnce(items, source, dest, allowDelete, items[i]);
      if items[i] == items[j] { CountAtLeastTwo(items, i, j); }
      SameKeySameItem(source, dest, allowDelete, items[i], items[j]);
    }
  }

  lemma SameKeySameEnvelope(source: seq<Envelope>, e: Envelope, f: Envelope)
    requires DistinctKeys(source) && e in source && f in source && KeyOf(e) == KeyOf(f)
    ensures e == f
  {
    var i :| 0 <= i < |source| && source[i] == e;
    var j :| 0 <= j < |source| && source[j] == f;
    assert i == j;
  }

  lemma SameKeySameItem(source: seq<Envelope>, dest: Destination, allowDelete: bool, p: PlanItem, q: PlanItem)
    requires AllValid(source) && Splittable(Stale(source, dest, allowDelete)) && DistinctKeys(source)
    requires FromSource(source, dest, p) || FromStale(source, dest, allowDelete, p)
    requires FromSource(source, dest, q) || FromStale(source, dest, allowDelete, q)
    ensures ItemKey(p) == ItemKey(q) ==> p == q
  {
    if ItemKey(p) == ItemKey(q) && FromSource(source, dest, p) && FromSource(source, dest, q) {
      var e :| e in source && p == SourceItem(e, dest);
      var f :| f in source && q == SourceItem(f, dest);
      SameKeySameEnvelope(source, e, f);
    } else {
      KeySide(source, dest, allowDelete, p);
      KeySide(source, dest, allowDelete, q);
    }
  }

  lemma KeySide(source: seq<Envelope>, dest: Destination, allowDelete: bool, p: PlanItem)
    requires AllValid(source) && Splittable(Stale(source, dest, allowDelete))
    ensures FromSource(source, dest, p) ==> ItemKey(p) in Keys(source)
    ensures FromStale(source, dest, allowDelete, p) ==>
      ItemKey(p) in dest && ItemKey(p) !in Keys(source) && '/' in ItemKey(p) && p == DeleteItem(ItemKey(p), dest[ItemKey(p)])
  {
    if FromSource(source, dest, p) {
      var e :| e in source && p == SourceItem(e, dest);
      assert KeyOf(e) in Keys(source);
    }
  }

  /** With distinct keys a plan is in strict order of kind and id, so there is only one: it does not
      depend on the order of the bundle or on how the destination map is iterated. */
  lemma DiffDeterministic(items: seq<PlanItem>, items': seq<PlanItem>, source: seq<Envelope>, source': seq<Envelope>,
                          dest: Destination, allowDelete: bool)
    requires AllValid(source) && DistinctKeys(source) && Splittable(Stale(source, dest, allowDelete))
    requires AllValid(source') && DistinctKeys(source') && Splittable(Stale(source', dest, allowDelete))
    requires forall e :: e in source <==> e in source'
    requires IsDiff(items, source, dest, allowDelete) && IsDiff(items', source', dest, allowDelete)
    ensures StrictlySorted(ItemLess(), items)
    ensures items == items'
  {
    Strict(items, source, dest, allowDelete);
    Strict(items', source', dest, allowDelete);
    assert Keys(source) == Keys(source');
    forall p ensures p in items <==> p in items' {
      ItemSource(items, source, dest, allowDelete, p);
      ItemSource(items', source', dest, allowDelete, p);
    }
    ItemLessIsOrder();
    StrictlySortedUnique(ItemLess(), items, items');
  }

  lemma Strict(items: seq<PlanItem>, source: seq<Envelope>, dest: Destination, allowDelete: bool)
    requires AllValid(source) && Splittable(Stale(source, dest, allowDelete)) && IsDiff(items, source, dest, allowDelete)
    requires DistinctKeys(source)
    ensures StrictlySorted(ItemLess(), items)
  {
    ItemsDistinct(items, source, dest, allowDelete);
    forall i, j | 0 <= i < j < |items| ensures ItemLess()(items[i], items[j]) {
      assert ItemKey(items[i]) != ItemKey(items[j]) && !ItemLess()(items[j], items[i]);
      Text.LessTotal(items[i].kind, items[j].kind);
      Text.LessTotal(items[i].id, items[j].id);
    }
  }

  // ----- Fixpoint -------------------------------------------------------------------------------

  /** What the destination holds of an envelope once it is applied; who it then belongs to is up to
      the destination. */
  function InstalledAs(e: Envelope, owner: Envelope -> string): Existing
    requires Validated(e).Some?
  {
    Existing(e.kind, e.id, Validated(e).value.digest, owner(e), e.revision, e.schemaVersion)
  }

  ghost function EnvelopeOf(source: seq<Envelope>, key: string): (e: Envelope)
    requires key in Keys(source)
    ensures e in source && KeyOf(e) == key
  {
    var e :| e in source && KeyOf(e) == key;
    e
  }

  ghost function ApplyItem(p: PlanItem, source: seq<Envelope>, dest: Destination, owner: Envelope -> string): Destination
    requires AllValid(source)
  {
    if p.change in {Create, Update} && ItemKey(p) in Keys(source) then
      dest[ItemKey(p) := InstalledAs(EnvelopeOf(source, ItemKey(p)), owner)]
    else if p.change == Delete then dest - {ItemKey(p)}
    else dest
  }

  /** Every create, update and delete of a plan, in order. */
  ghost function ApplyItems(items: seq<PlanItem>, source: seq<Envelope>, dest: Destination, owner: Envelope -> string): Destination
    requires AllValid(source)
    decreases |items|
  {
    if items == [] then dest
    else ApplyItems(items[1..], source, ApplyItem(items[0], source, dest, owner), owner)
  }

  ghost predicate SameAt(m: Destination, n: Destination, key: string) {
    (key in m <==> key in n) && (key in m ==> m[key] == n[key])
  }

  lemma {:induction false} Untouched(items: seq<PlanItem>, source: seq<Envelope>, dest: Destination, owner: Envelope -> string, key: string)
    requires AllValid(source) && forall p :: p in items ==> ItemKey(p) != key
    ensures SameAt(ApplyItems(items, source, dest, owner), dest, key)
    decreases |items|
  {
    if items != [] { Untouched(items[1..], source, ApplyItem(items[0], source, dest, owner), owner, key); }
  }

  lemma {:induction false} AppliedAt(items: seq<PlanItem>, source: seq<Envelope>, dest: Destination, owner: Envelope -> string, i: nat)
    requires AllValid(source) && i < |items|
    requires forall j, k :: 0 <= j < k < |items| ==> ItemKey(items[j]) != ItemKey(items[k])
    ensures SameAt(ApplyItems(items, source, dest, owner), ApplyItem(items[i], source, dest, owner), ItemKey(items[i]))
    decreases |items|
  {
    var next := ApplyItem(items[0], source, dest, owner);
    DistinctTail(items);
    if i == 0 {
      Untouched(items[1..], source, next, owner, ItemKey(items[0]));
    } else {
      AppliedAt(items[1..], source, next, owner, i - 1);
    }
  }

  lemma DistinctTail(items: seq<PlanItem>)
    requires items != [] && forall j, k :: 0 <= j < k < |items| ==> ItemKey(items[j]) != ItemKey(items[k])
    ensures forall j, k :: 0 <= j < k < |items[1..]| ==> ItemKey(items[1..][j]) != ItemKey(items[1..][k])
    ensures forall p :: p in items[1..] ==> ItemKey(p) != ItemKey(items[0])
  {
  }

  /** The item of an envelope once its own first item has been applied. */
  lemma AppliedItem(e: Envelope, dest: Destination, dest': Destination, owner: Envelope -> string)
    requires Validated(e).Some?
    requires var change := SourceItem(e, dest).change;
      if change in {Create, Update} then KeyOf(e) in dest' && dest'[KeyOf(e)] == InstalledAs(e, owner)
      else SameAt(dest', dest, KeyOf(e))
    ensures SourceItem(e, dest').change == if SourceItem(e, dest).change == Conflict then Conflict else Noop
  {
  }

  /** After a plan is applied, an envelope's item is a conflict if it was one and a noop otherwise. */
  lemma AppliedSource(items: seq<PlanItem>, source: seq<Envelope>, dest: Destination, allowDelete: bool,
                      owner: Envelope -> string, e: Envelope)
    requires AllValid(source) && Splittable(Stale(source, dest, allowDelete)) && IsDiff(items, source, dest, allowDelete)
    requires DistinctKeys(source) && e in source
    ensures var again := SourceItem(e, ApplyItems(items, source, dest, owner));
      again.change == if SourceItem(e, dest).change == Conflict then Conflict else Noop
  {
    var p := SourceItem(e, dest);
    assert FromSource(source, dest, p);
    ItemSource(items, source, dest, allowDelete, p);
    ItemsDistinct(items, source, dest, allowDelete);
    var i :| 0 <= i < |items| && items[i] == p;
    AppliedAt(items, source, dest, owner, i);
    assert KeyOf(e) in Keys(source);
    SameKeySameEnvelope(source, EnvelopeOf(source, KeyOf(e)), e);
    AppliedItem(e, dest, ApplyItems(items, source, dest, owner), owner);
  }

  /** Where a plan leaves an envelope: installed, digest and revision, exactly if the destination lacked
      it or the source might replace what was there; otherwise nothing of that key changes. */
  lemma InstalledExactly(items: seq<PlanItem>, source: seq<Envelope>, dest: Destination, allowDelete: bool,
                         owner: Envelope -> string, e: Envelope)
    requires AllValid(source) && Splittable(Stale(source, dest, allowDelete)) && IsDiff(items, source, dest, allowDelete)
    requires DistinctKeys(source) && e in source
    ensures var key, dest' := e.kind + "/" + e.id, ApplyItems(items, source, dest, owner);
      && (key !in dest || (dest[key].digest != DigestOf(e) && MayReplace(e, dest[key])) ==>
            key in dest' && dest'[key] == Existing(e.kind, e.id, DigestOf(e), owner(e), e.revision, e.schemaVersion))
      && (key in dest && (dest[key].digest == DigestOf(e) || !MayReplace(e, dest[key])) ==>
            key in dest' && dest'[key] == dest[key])
  {
    var p := SourceItem(e, dest);
    SourceItemMeans(e, dest, p);
    ValidatedExactly(e);
    assert FromSource(source, dest, p);
    ItemSource(items, source, dest, allowDelete, p);
    ItemsDistinct(items, source, dest, allowDelete);
    var i :| 0 <= i < |items| && items[i] == p;
    AppliedAt(items, source, dest, owner, i);
    assert KeyOf(e) in Keys(source);
    SameKeySameEnvelope(source, EnvelopeOf(source, KeyOf(e)), e);
  }

  /** So the destination ends with an envelope's digest unless the two are in dispute or the
      destination's own copy wins. */
  lemma DigestHeldExactly(items: seq<PlanItem>, source: seq<Envelope>, dest: Destination, allowDelete: bool,
                          owner: Envelope -> string, e: Envelope)
    requires AllValid(source) && Splittable(Stale(source, dest, allowDelete)) && IsDiff(items, source, dest, allowDelete)
    requires DistinctKeys(source) && e in source
    ensures var key, dest' := e.kind + "/" + e.id, ApplyItems(items, source, dest, owner);
      key in dest' && (dest'[key].digest == DigestOf(e) <==>
                       key !in dest || dest[key].digest == DigestOf(e) || MayReplace(e, dest[key]))
  {
    InstalledExactly(items, source, dest, allowDelete, owner, e);
  }

  lemma AppliedStale(items: seq<PlanItem>, source: seq<Envelope>, dest: Destination,
                     owner: Envelope -> string, key: string)
    requires AllValid(source) && Splittable(Stale(source, dest, true)) && IsDiff(items, source, dest, true)
    requires DistinctKeys(source) && key !in Keys(source)
    ensures key !in ApplyItems(items, source, dest, owner)
  {
    ItemsDistinct(items, source, dest, true);
    if key in dest {
      var p := DeleteItem(key, dest[key]);
      ItemSource(items, source, dest, true, p);
      var i :| 0 <= i < |items| && items[i] == p;
      AppliedAt(items, source, dest, owner, i);
    } else {
      forall p | p in items ensures ItemKey(p) != key {
        ItemSource(items, source, dest, true, p);
        KeySide(source, dest, true, p);
      }
      Untouched(items, source, dest, owner, key);
    }
  }

  /** Diffing again after applying a plan plans nothing: every item is a noop or a conflict, one for
      each envelope, a conflict exactly where the first plan had one; with deletion allowed the
      destination then has no key the bundle does not name. */
  lemma DiffFixpoint(items: seq<PlanItem>, again: seq<PlanItem>, source: seq<Envelope>, dest: Destination,
                     allowDelete: bool, owner: Envelope -> string)
    requires AllValid(source) && DistinctKeys(source)
    requires Splittable(Stale(source, dest, allowDelete)) && IsDiff(items, source, dest, allowDelete)
    ensures var dest' := ApplyItems(items, source, dest, owner);
      && Stale(source, dest', allowDelete) == {}
      && (IsDiff(again, source, dest', allowDelete) ==>
            && |again| == |source|
            && (forall q :: q in again ==> q.change in {Noop, Conflict})
            && (forall e :: e in source ==> (SourceItem(e, dest').change == Conflict <==> SourceItem(e, dest).change == Conflict)))
  {
    var dest' := ApplyItems(items, source, dest, owner);
    if allowDelete {
      forall key | key in dest' ensures key in Keys(source) {
        if key !in Keys(source) { AppliedStale(items, source, dest, owner, key); }
      }
    }
    forall e | e in source
      ensures SourceItem(e, dest').change == if SourceItem(e, dest).change == Conflict then Conflict else Noop
    {
      AppliedSource(items, source, dest, allowDelete, owner, e);
    }
    if IsDiff(again, source, dest', allowDelete) {
      assert |multiset(again)| == |again|;
      forall q | q in again ensures q.change in {Noop, Conflict} { ItemSource(again, source, dest', allowDelete, q); }
    }
  }
}
