/** Bounded terminal scrollback over UTF-8 bytes (terminal/terminal.go). Well-formed sequences are
    those of section 4 of RFC 3629. */
module Scrollback {
  import opened Octets
  import opened Sequences

  const DEFAULT_SCROLLBACK_LIMIT := 0x40000

  /** U+FFFD in UTF-8. */
  const REPLACEMENT: Bytes := [0xEF, 0xBF, 0xBD]

  predicate Tail(b: byte) { 0x80 <= b <= 0xBF }

  /** utf8.RuneStart: every byte that does not continue a sequence. */
  predicate RuneStart(b: byte) { !Tail(b) }

  /** The length of the well-formed sequence s begins with, 0 when there is none. */
  function RuneLen(s: Bytes): (n: nat)
    ensures n <= 4 && n <= |s|
  {
    if s == [] then 0
    else if s[0] <= 0x7F then 1
    else if |s| >= 2 && 0xC2 <= s[0] <= 0xDF && Tail(s[1]) then 2
    else if |s| >= 3 && Tail(s[2]) && Leads3(s[0], s[1]) then 3
    else if |s| >= 4 && Tail(s[2]) && Tail(s[3]) && Leads4(s[0], s[1]) then 4
    else 0
  }

  predicate Leads3(a: byte, b: byte) {
    || (a == 0xE0 && 0xA0 <= b <= 0xBF)
    || (0xE1 <= a <= 0xEC && Tail(b))
    || (a == 0xED && 0x80 <= b <= 0x9F)
    || (0xEE <= a <= 0xEF && Tail(b))
  }

  predicate Leads4(a: byte, b: byte) {
    || (a == 0xF0 && 0x90 <= b <= 0xBF)
    || (0xF1 <= a <= 0xF3 && Tail(b))
    || (a == 0xF4 && 0x80 <= b <= 0x8F)
  }

  /** Well-formed UTF-8. */
  predicate Valid(s: Bytes) {
    s == [] || (RuneLen(s) > 0 && Valid(s[RuneLen(s)..]))
  }

  /** strings.ToValidUTF8 with U+FFFD: each run of bytes that begin no sequence becomes one U+FFFD.
      bad says that the byte before s was part of such a run. */
  function Repair(s: Bytes, bad: bool): Bytes {
    if s == [] then []
    else if RuneLen(s) > 0 then s[..RuneLen(s)] + Repair(s[RuneLen(s)..], false)
    else (if bad then [] else REPLACEMENT) + Repair(s[1..], true)
  }

  /** NormalizeOutput. */
  function ToValid(s: Bytes): Bytes { Repair(s, false) }

  /** Whether reading s ends inside a run of bad bytes. */
  predicate EndsBad(s: Bytes, bad: bool) {
    if s == [] then bad
    else if RuneLen(s) > 0 then EndsBad(s[RuneLen(s)..], false)
    else EndsBad(s[1..], true)
  }

  // ----- Repair ---------------------------------------------------------------------------------

  lemma RuneLenPrefix(s: Bytes, t: Bytes)
    requires RuneLen(s) > 0
    ensures RuneLen(s + t) == RuneLen(s)
    ensures (s + t)[..RuneLen(s)] == s[..RuneLen(s)] && (s + t)[RuneLen(s)..] == s[RuneLen(s)..] + t
  {
  }

  lemma {:induction false} ValidConcat(s: Bytes, t: Bytes)
    requires Valid(s) && Valid(t)
    ensures Valid(s + t)
  {
    if s == [] {
      assert s + t == t;
    } else {
      RuneLenPrefix(s, t);
      ValidConcat(s[RuneLen(s)..], t);
    }
  }

  lemma OneRuneValid(s: Bytes)
    requires RuneLen(s) > 0
    ensures Valid(s[..RuneLen(s)])
  {
    var r := s[..RuneLen(s)];
    assert RuneLen(r) == |r|;
  }

  lemma {:induction false} RepairValid(s: Bytes, bad: bool)
    ensures Valid(Repair(s, bad))
  {
    if s != [] {
      if RuneLen(s) > 0 {
        RepairValid(s[RuneLen(s)..], false);
        OneRuneValid(s);
        ValidConcat(s[..RuneLen(s)], Repair(s[RuneLen(s)..], false));
      } else {
        RepairValid(s[1..], true);
        var tail := Repair(s[1..], true);
        assert [] + tail == tail;
        assert RuneLen(REPLACEMENT) == 3 && REPLACEMENT[3..] == [];
        ValidConcat(REPLACEMENT, tail);
      }
    }
  }

  /** Text that is well-formed already is left alone. */
  lemma {:induction false} RepairIdentity(s: Bytes, bad: bool)
    requires Valid(s)
    ensures Repair(s, bad) == s && (s != [] || !bad ==> !EndsBad(s, bad))
  {
    if s != [] {
      RepairIdentity(s[RuneLen(s)..], false);
      assert s == s[..RuneLen(s)] + s[RuneLen(s)..];
    }
  }

  /** NormalizeOutput always gives well-formed text, changes only text that was not, and once is enough. */
  lemma ToValidNormalizes(s: Bytes)
    ensures Valid(ToValid(s))
    ensures ToValid(s) == s <==> Valid(s)
    ensures ToValid(ToValid(s)) == ToValid(s)
  {
    RepairValid(s, false);
    RepairIdentity(ToValid(s), false);
    if Valid(s) { RepairIdentity(s, false); }
  }

  lemma RepairStep(s: Bytes, bad: bool, n: nat)
    requires s != [] && n == (if RuneLen(s) > 0 then RuneLen(s) else 1)
    ensures Repair(s, bad) == Head(s, bad) + Repair(s[n..], RuneLen(s) == 0)
  {
  }

  function Head(s: Bytes, bad: bool): Bytes {
    if RuneLen(s) > 0 then s[..RuneLen(s)] else if bad then [] else REPLACEMENT
  }

  lemma Assoc(a: Bytes, b: Bytes, c: Bytes)
    ensures a + (b + c) == a + b + c
  {
  }

  /** Reading s that does not end in a bad run, the bytes after it are repaired on their own. */
  lemma {:induction false} RepairConcat(s: Bytes, t: Bytes, bad: bool)
    requires !EndsBad(s, bad)
    ensures Repair(s + t, bad) == Repair(s, bad) + Repair(t, false)
  {
    if s == [] {
      assert s + t == t;
    } else {
      var n := if RuneLen(s) > 0 then RuneLen(s) else 1;
      HeadUnchanged(s, t, bad);
      RepairStep(s, bad, n);
      RepairStep(s + t, bad, n);
      RepairConcat(s[n..], t, RuneLen(s) == 0);
      Assoc(Head(s, bad), Repair(s[n..], RuneLen(s) == 0), Repair(t, false));
    }
  }

  lemma HeadUnchanged(s: Bytes, t: Bytes, bad: bool)
    requires s != [] && !EndsBad(s, bad)
    ensures RuneLen(s + t) == RuneLen(s) && Head(s + t, bad) == Head(s, bad)
    ensures var n := if RuneLen(s) > 0 then RuneLen(s) else 1; (s + t)[n..] == s[n..] + t
  {
    var n := if RuneLen(s) > 0 then RuneLen(s) else 1;
    if RuneLen(s) > 0 { RuneLenPrefix(s, t); } else { CleanTailFixesHead(s, t); }
    SliceConcat(s, t, n);
  }

  lemma SliceConcat(s: Bytes, t: Bytes, n: nat)
    requires n <= |s|
    ensures (s + t)[..n] == s[..n] && (s + t)[n..] == s[n..] + t
  {
  }

  /** A head byte that begins no sequence in s begins none in s + t either, when s does not end in a
      bad run: the sequence would have to swallow the end of s, bad bytes all. */
  lemma CleanTailFixesHead(s: Bytes, t: Bytes)
    requires s != [] && RuneLen(s) == 0 && !EndsBad(s[1..], true)
    ensures RuneLen(s + t) == 0
  {
    RuneLenLocal(s, t);
    if RuneLen(s + t) > |s| { LongRuneSwallows(s, t); }
  }

  lemma RuneLenLocal(s: Bytes, t: Bytes)
    requires s != []
    ensures RuneLen(s + t) <= |s| ==> RuneLen(s + t) == RuneLen(s)
  {
    assert forall k :: 0 <= k < |s| ==> (s + t)[k] == s[k];
  }

  lemma LongRuneSwallows(s: Bytes, t: Bytes)
    requires s != [] && RuneLen(s + t) > |s|
    ensures EndsBad(s[1..], true)
  {
    assert forall k :: 1 <= k < |s| ==> s[k] == (s + t)[k];
    AllTailsBad(s[1..]);
  }

  lemma {:induction false} AllTailsBad(s: Bytes)
    requires forall k :: 0 <= k < |s| ==> Tail(s[k])
    ensures EndsBad(s, true)
  {
    if s != [] { AllTailsBad(s[1..]); }
  }

  lemma {:induction false} BadRunSwallows(s: Bytes, bad: bool)
    requires EndsBad(s, bad)
    ensures Repair(s + [0xFF], bad) == Repair(s, bad)
  {
    if s == [] {
      assert s + [0xFF] == [0xFF];
      assert RuneLen([0xFF]) == 0;
    } else if RuneLen(s) > 0 {
      RuneLenPrefix(s, [0xFF]);
      BadRunSwallows(s[RuneLen(s)..], false);
    } else {
      assert RuneLen(s + [0xFF]) == 0;
      assert (s + [0xFF])[1..] == s[1..] + [0xFF];
      BadRunSwallows(s[1..], true);
    }
  }

  // ----- UTF-8 ----------------------------------------------------------------------------------

  /** A code point that is not a surrogate. */
  predicate Scalar(u: nat) { u <= 0x10FFFF && !(0xD800 <= u <= 0xDFFF) }

  function Continuation(n: nat): byte { (0x80 + n % 64) as byte }

  /** Section 3 of RFC 3629. */
  function Encoded(u: nat): (r: Bytes)
    requires Scalar(u)
    ensures 1 <= |r| <= 4
  {
    if u < 0x80 then [u as byte]
    else if u < 0x800 then [(0xC0 + u / 64) as byte, Continuation(u)]
    else if u < 0x1_0000 then [(0xE0 + u / 4096) as byte, Continuation(u / 64), Continuation(u)]
    else [(0xF0 + u / 262144) as byte, Continuation(u / 4096), Continuation(u / 64), Continuation(u)]
  }

  /** s begins with the encoding of u. */
  ghost predicate Begins(s: Bytes, u: nat) { Scalar(u) && Encoded(u) <= s }

  lemma EncodedLen(s: Bytes, u: nat)
    requires Begins(s, u)
    ensures RuneLen(s) == |Encoded(u)|
  {
    var e := Encoded(u);
    assert forall k :: 0 <= k < |e| ==> s[k] == e[k];
    if 0x800 <= u < 0x1_0000 { Lead3Encoded(u); } else if u >= 0x1_0000 { Lead4Encoded(u); }
  }

  lemma Lead3Encoded(u: nat)
    requires Scalar(u) && 0x800 <= u < 0x1_0000
    ensures Leads3(Encoded(u)[0], Encoded(u)[1])
  {
    assert u / 64 % 64 == u / 64 - 64 * (u / 4096);
  }

  lemma Lead4Encoded(u: nat)
    requires Scalar(u) && 0x1_0000 <= u
    ensures Leads4(Encoded(u)[0], Encoded(u)[1])
  {
    assert u / 4096 % 64 == u / 4096 - 64 * (u / 262144);
  }

  lemma Low(n: nat, b: byte)
    requires Tail(b)
    ensures (n * 64 + (b as int - 0x80)) / 64 == n && Continuation(n * 64 + (b as int - 0x80)) == b
  {
  }

  lemma RuneDecodes(s: Bytes) returns (u: nat)
    requires RuneLen(s) > 0
    ensures Begins(s, u) && |Encoded(u)| == RuneLen(s)
  {
    var n := RuneLen(s);
    if n == 1 {
      u := s[0] as nat;
      assert Encoded(u) == s[..1];
    } else if n == 2 {
      var a := s[0] as int - 0xC0;
      u := a * 64 + (s[1] as int - 0x80);
      Low(a, s[1]);
      assert Encoded(u) == s[..2];
    } else if n == 3 {
      u := Decoded3(s);
    } else {
      u := Decoded4(s);
    }
  }

  lemma Decoded3(s: Bytes) returns (u: nat)
    requires RuneLen(s) == 3
    ensures Begins(s, u) && |Encoded(u)| == 3
  {
    var a := s[0] as int - 0xE0;
    var b := a * 64 + (s[1] as int - 0x80);
    u := b * 64 + (s[2] as int - 0x80);
    Low(a, s[1]);
    Low(b, s[2]);
    assert u / 4096 == u / 64 / 64;
    assert Encoded(u) == s[..3];
  }

  lemma Decoded4(s: Bytes) returns (u: nat)
    requires RuneLen(s) == 4
    ensures Begins(s, u) && |Encoded(u)| == 4
  {
    var a := s[0] as int - 0xF0;
    var b := a * 64 + (s[1] as int - 0x80);
    var c := b * 64 + (s[2] as int - 0x80);
    u := c * 64 + (s[3] as int - 0x80);
    Low(a, s[1]);
    Low(b, s[2]);
    Low(c, s[3]);
    assert u / 4096 == u / 64 / 64 && u / 262144 == u / 64 / 64 / 64;
    assert Encoded(u) == s[..4];
  }

  /** The table of section 4 of the standard accepts the encodings of section 3: a sequence is well-formed
      exactly when it encodes a scalar value. */
  lemma RuneLenExactly(s: Bytes)
    ensures RuneLen(s) > 0 <==> exists u :: Begins(s, u)
    ensures forall u :: Begins(s, u) ==> RuneLen(s) == |Encoded(u)|
  {
    if RuneLen(s) > 0 { var u := RuneDecodes(s); }
    forall u | Begins(s, u) ensures RuneLen(s) == |Encoded(u)| { EncodedLen(s, u); }
  }

  ghost predicate Scalars(us: seq<nat>) { forall i :: 0 <= i < |us| ==> Scalar(us[i]) }

  ghost function EncodedAll(us: seq<nat>): Bytes
    requires Scalars(us)
  {
    if us == [] then [] else Encoded(us[0]) + EncodedAll(us[1..])
  }

  ghost predicate Encodes(us: seq<nat>, s: Bytes) { Scalars(us) && EncodedAll(us) == s }

  lemma {:induction false} EncodedValid(us: seq<nat>)
    requires Scalars(us)
    ensures Valid(EncodedAll(us))
  {
    if us != [] {
      EncodedValid(us[1..]);
      var s := EncodedAll(us);
      EncodedLen(s, us[0]);
      assert s[|Encoded(us[0])|..] == EncodedAll(us[1..]);
    }
  }

  lemma {:induction false} ValidDecodes(s: Bytes) returns (us: seq<nat>)
    requires Valid(s)
    ensures Encodes(us, s)
  {
    us := [];
    if s != [] {
      var u := RuneDecodes(s);
      var rest := ValidDecodes(s[RuneLen(s)..]);
      us := [u] + rest;
      assert us[1..] == rest && s == s[..RuneLen(s)] + s[RuneLen(s)..];
      assert Encoded(u) == s[..RuneLen(s)];
    }
  }

  /** Well-formed text is what encodes some scalar values. */
  lemma ValidExactly(s: Bytes)
    ensures Valid(s) <==> exists us :: Encodes(us, s)
  {
    if Valid(s) { var us := ValidDecodes(s); }
    if us :| Encodes(us, s) { EncodedValid(us); }
  }

  lemma {:induction false} RepairAfterValid(v: Bytes, t: Bytes)
    requires Valid(v)
    ensures Repair(v + t, false) == v + Repair(t, false)
  {
    RepairIdentity(v, false);
    RepairConcat(v, t, false);
  }

  lemma {:induction false} RepairRun(b: Bytes, t: Bytes)
    requires forall k :: 0 <= k < |b| ==> RuneLen((b + t)[k..]) == 0
    requires t == [] || RuneLen(t) > 0
    ensures Repair(b + t, true) == Repair(t, false)
  {
    if b == [] {
      assert b + t == t;
    } else {
      assert (b + t)[0..] == b + t && (b + t)[1..] == b[1..] + t;
      forall k | 0 <= k < |b[1..]| ensures RuneLen((b[1..] + t)[k..]) == 0 {
        DropDrop(b + t, 1, k);
      }
      RepairRun(b[1..], t);
    }
  }

  /** Normalizing, part by part: well-formed text stays, and a whole run of bytes none of which begins a
      sequence turns into one U+FFFD. Any text is made of such parts. */
  lemma ToValidExactly(v: Bytes, b: Bytes, t: Bytes)
    ensures ToValid([]) == []
    ensures Valid(v) ==> ToValid(v + t) == v + ToValid(t)
    ensures b != [] && (forall k :: 0 <= k < |b| ==> RuneLen((b + t)[k..]) == 0) && (t == [] || RuneLen(t) > 0) ==>
      ToValid(b + t) == [0xEF, 0xBF, 0xBD] + ToValid(t)
  {
    if Valid(v) { RepairAfterValid(v, t); }
    if b != [] && (forall k :: 0 <= k < |b| ==> RuneLen((b + t)[k..]) == 0) && (t == [] || RuneLen(t) > 0) {
      assert (b + t)[0..] == b + t && (b + t)[1..] == b[1..] + t;
      forall k | 0 <= k < |b[1..]| ensures RuneLen((b[1..] + t)[k..]) == 0 {
        DropDrop(b + t, 1, k);
      }
      RepairRun(b[1..], t);
    }
  }

  // ----- Truncation -----------------------------------------------------------------------------

  /** Position p of s can start the kept text: the end, or a byte that continues no sequence. */
  predicate Boundary(s: Bytes, p: nat) {
    p == |s| || (p < |s| && RuneStart(s[p]))
  }

  /** The first boundary at or after p. */
  function FirstBoundary(s: Bytes, p: nat): (q: nat)
    requires p <= |s|
    ensures p <= q <= |s| && Boundary(s, q) && forall k :: p <= k < q ==> !Boundary(s, k)
    decreases |s| - p
  {
    if Boundary(s, p) then p else FirstBoundary(s, p + 1)
  }

  function Limit(limit: int): (n: nat)
    ensures limit > 0 ==> n == limit
    ensures limit <= 0 ==> n == 262_144
  {
    if limit <= 0 then DEFAULT_SCROLLBACK_LIMIT else limit
  }

  /** The scrollback after output p: the text, cut at the first boundary that brings it in bounds. */
  function Keep(s: Bytes, limit: nat): Bytes {
    if |s| <= limit then s else s[FirstBoundary(s, |s| - limit)..]
  }

  /** Whatever the bytes: all of them when they fit, and otherwise the longest suffix that fits and does
      not begin with a byte that continues a sequence. */
  lemma KeepExactly(s: Bytes, limit: nat)
    ensures var r := Keep(s, limit);
      && |r| <= |s| && r == s[|s| - |r|..]
      && (|s| <= limit ==> r == s)
      && (|s| > limit ==> |r| <= limit && (r == [] || !Tail(r[0])))
      && (forall q :: 0 <= |s| - limit <= q < |s| - |r| ==> Tail(s[q]))
  {
    if |s| > limit {
      var cut := FirstBoundary(s, |s| - limit);
      forall q | |s| - limit <= q < cut ensures Tail(s[q]) { assert !Boundary(s, q); }
    }
  }

  method AppendScrollback(existing: Bytes, p: Bytes, limit: int) returns (r: Bytes)
    ensures r == Keep(existing + ToValid(p), Limit(limit))
  {
    var bound := limit;
    if bound <= 0 { bound := DEFAULT_SCROLLBACK_LIMIT; }
    var combined := existing + ToValid(p);
    if |combined| <= bound { return combined; }
    ghost var whole := combined;
    ghost var q := |combined| - bound;
    combined := combined[|combined| - bound..];
    while |combined| > 0 && !RuneStart(combined[0])
      invariant |whole| - bound <= q <= |whole| && combined == whole[q..]
      invariant FirstBoundary(whole, |whole| - bound) == FirstBoundary(whole, q)
    {
      combined := combined[1..];
      q := q + 1;
    }
    assert |combined| > 0 ==> combined[0] == whole[q];
    assert Boundary(whole, q);
    return combined;
  }

  /** In well-formed text a suffix is well-formed exactly when it starts at a boundary. */
  lemma {:induction false} SuffixValid(s: Bytes, p: nat)
    requires Valid(s) && p <= |s|
    ensures Valid(s[p..]) <==> Boundary(s, p)
    decreases |s|
  {
    if p == 0 || p == |s| {
      assert s[0..] == s;
    } else {
      var n := RuneLen(s);
      if p < n {
        InsideRune(s, p);
      } else {
        SuffixValid(s[n..], p - n);
        DropDrop(s, n, p - n);
      }
    }
  }

  /** No sequence begins inside another. */
  lemma InsideRune(s: Bytes, p: nat)
    requires 0 < p < RuneLen(s)
    ensures Tail(s[p]) && !Valid(s[p..])
  {
    assert s[p..][0] == s[p];
  }

  lemma {:induction false} BoundaryNear(s: Bytes, p: nat)
    requires Valid(s) && p <= |s|
    ensures FirstBoundary(s, p) <= p + 3
    decreases |s|
  {
    if p < |s| {
      var n := RuneLen(s);
      if p < n {
        if n < |s| { assert RuneStart(s[n..][0]); }
        assert Boundary(s, n);
      } else {
        BoundaryNear(s[n..], p - n);
        var q := FirstBoundary(s[n..], p - n);
        assert Boundary(s, q + n);
      }
    }
  }

  /** For well-formed text the scrollback is the longest well-formed suffix of the whole that fits the
      limit, and truncation gives up at most 3 bytes of the limit. */
  lemma ScrollbackLongest(existing: Bytes, p: Bytes, limit: int)
    requires Valid(existing)
    ensures var whole, r := existing + ToValid(p), Keep(existing + ToValid(p), Limit(limit));
      && Valid(r)
      && |r| <= Limit(limit)
      && r == whole[|whole| - |r|..]
      && (forall q :: 0 <= q < |whole| - |r| && |whole| - q <= Limit(limit) ==> !Valid(whole[q..]))
      && (|whole| > Limit(limit) ==> |r| + 3 >= Limit(limit))
  {
    var whole, n := existing + ToValid(p), Limit(limit);
    RepairValid(p, false);
    ValidConcat(existing, ToValid(p));
    if |whole| > n {
      var cut := FirstBoundary(whole, |whole| - n);
      SuffixValid(whole, cut);
      BoundaryNear(whole, |whole| - n);
      forall q | 0 <= q < cut && |whole| - q <= n ensures !Valid(whole[q..]) {
        SuffixValid(whole, q);
      }
    }
  }

  lemma FirstBoundaryIs(s: Bytes, p: nat, q: nat)
    requires p <= q <= |s| && Boundary(s, q) && forall k :: p <= k < q ==> !Boundary(s, k)
    ensures FirstBoundary(s, p) == q
  {
    assert Boundary(s, FirstBoundary(s, p));
  }

  lemma FirstBoundaryShift(s: Bytes, a: nat, p: nat)
    requires a <= |s| && a + p <= |s|
    ensures FirstBoundary(s[a..], p) + a == FirstBoundary(s, a + p)
  {
    var q := FirstBoundary(s, a + p);
    forall k | p <= k <= |s| - a ensures Boundary(s[a..], k) == Boundary(s, a + k) { }
    FirstBoundaryIs(s[a..], p, q - a);
  }

  /** Cutting, appending and cutting again is cutting once: the first cut removed nothing the second
      would have kept. What is appended must not begin inside a sequence. */
  lemma KeepTwice(s: Bytes, t: Bytes, limit: nat)
    requires limit > 0 && (t == [] || RuneStart(t[0]))
    ensures Keep(Keep(s, limit) + t, limit) == Keep(s + t, limit)
  {
    if |s| > limit {
      var whole, a := s + t, FirstBoundary(s, |s| - limit);
      SliceConcat(s, t, a);
      if |whole| - a > limit {
        KeepShift(whole, a, limit);
      } else {
        CutStays(s, t, limit);
      }
    }
  }

  /** Cutting what was cut at a already is cutting the whole. */
  lemma KeepShift(whole: Bytes, a: nat, limit: nat)
    requires limit > 0 && a <= |whole| && |whole| - a > limit
    ensures Keep(whole[a..], limit) == Keep(whole, limit)
  {
    var p := |whole| - a - limit;
    FirstBoundaryShift(whole, a, p);
    DropDrop(whole, a, FirstBoundary(whole[a..], p));
  }

  /** What is appended without a further cut leaves the first cut where it was. */
  lemma CutStays(s: Bytes, t: Bytes, limit: nat)
    requires limit > 0 && (t == [] || RuneStart(t[0])) && |s| > limit
    requires |s + t| - FirstBoundary(s, |s| - limit) <= limit
    ensures Keep(s + t, limit) == (s + t)[FirstBoundary(s, |s| - limit)..]
  {
    var whole, a := s + t, FirstBoundary(s, |s| - limit);
    assert Boundary(whole, a);
    forall k | |whole| - limit <= k < a ensures !Boundary(whole, k) {
      assert !Boundary(s, k) && whole[k] == s[k];
    }
    FirstBoundaryIs(whole, |whole| - limit, a);
  }

  lemma ValidStarts(s: Bytes)
    requires Valid(s)
    ensures s == [] || RuneStart(s[0])
  {
  }

  /** Writing a and then b leaves the scrollback that writing a + b leaves. */
  ghost predicate ChunkLaw(existing: Bytes, a: Bytes, b: Bytes, limit: int) {
    var n := Limit(limit);
    Keep(Keep(existing + ToValid(a), n) + ToValid(b), n) == Keep(existing + ToValid(a + b), n)
  }

  lemma CleanChunk(existing: Bytes, a: Bytes, b: Bytes, limit: int)
    requires !EndsBad(a, false)
    ensures ChunkLaw(existing, a, b, limit)
  {
    RepairValid(b, false);
    RepairConcat(a, b, false);
    Assoc(existing, ToValid(a), ToValid(b));
    ValidStarts(ToValid(b));
    KeepTwice(existing + ToValid(a), ToValid(b), Limit(limit));
  }

  /** Output may be written chunk by chunk, whatever the scrollback held, whatever comes next and
      whatever the limit, exactly when the first chunk does not end in a run of bad bytes; a chunk of
      well-formed text never does. */
  lemma ChunkedScrollbackExactly(a: Bytes)
    ensures !EndsBad(a, false) <==> forall existing, b, limit :: ChunkLaw(existing, a, b, limit)
    ensures Valid(a) ==> !EndsBad(a, false)
  {
    if Valid(a) { RepairIdentity(a, false); }
    if EndsBad(a, false) {
      BadRunSwallows(a, false);
      var n := |ToValid(a)| + 3;
      assert RuneLen([0xFF]) == 0 && ToValid([0xFF]) == REPLACEMENT + Repair([], true);
      assert [] + ToValid(a) == ToValid(a) && [] + ToValid(a + [0xFF]) == ToValid(a);
      assert !ChunkLaw([], a, [0xFF], n);
    } else {
      forall existing, b, limit ensures ChunkLaw(existing, a, b, limit) { CleanChunk(existing, a, b, limit); }
    }
  }
}
