/** The string operations of the Go standard library that the modelled code relies on. */
module Text {

  /** The white space that strings.TrimSpace removes. */
  predicate IsSpace(c: char) {
    || c in "\t\n\r "
    || c in ['\U{B}', '\U{C}', '\U{85}', '\U{A0}', '\U{1680}', '\U{2028}', '\U{2029}', '\U{202F}', '\U{205F}', '\U{3000}']
    || '\U{2000}' <= c <= '\U{200A}'
  }

  function TrimLeft(s: string): string {
    if s != "" && IsSpace(s[0]) then TrimLeft(s[1..]) else s
  }

  function TrimRight(s: string): string {
    if s != "" && IsSpace(s[|s| - 1]) then TrimRight(s[..|s| - 1]) else s
  }

  function TrimSpace(s: string): string {
    TrimRight(TrimLeft(s))
  }

  /** What a program means by TrimSpace(s) == "". */
  predicate Blank(s: string) {
    forall c :: c in s ==> IsSpace(c)
  }

  lemma {:induction false} TrimRightEmpty(s: string)
    ensures TrimRight(s) == "" <==> Blank(s)
  {
    if s != "" && IsSpace(s[|s| - 1]) {
      TrimRightEmpty(s[..|s| - 1]);
      assert s == s[..|s| - 1] + [s[|s| - 1]];
    }
  }

  lemma TrimNothing(s: string)
    requires s != "" && !IsSpace(s[0]) && !IsSpace(s[|s| - 1])
    ensures TrimSpace(s) == s
  {
  }

  lemma {:induction false} TrimRightEnds(s: string)
    ensures var r := TrimRight(s); r != "" ==> !IsSpace(r[|r| - 1])
  {
    if s != "" && IsSpace(s[|s| - 1]) { TrimRightEnds(s[..|s| - 1]); }
  }

  lemma {:induction false} TrimSpaceEmpty(s: string)
    ensures TrimSpace(s) == "" <==> Blank(s)
  {
    if s != "" && IsSpace(s[0]) {
      TrimSpaceEmpty(s[1..]);
      assert s == [s[0]] + s[1..];
    } else {
      TrimRightEmpty(s);
    }
  }

  /** Some text from which the ends l and r of white space have been taken. */
  ghost predicate Within(s: string, l: string, t: string, r: string) {
    && s == l + t + r && Blank(l) && Blank(r)
    && (t != "" ==> !IsSpace(t[0]) && !IsSpace(t[|t| - 1]))
  }

  lemma {:induction false} TrimRightParts(s: string) returns (r: string)
    ensures s == TrimRight(s) + r && Blank(r)
  {
    r := "";
    if s != "" && IsSpace(s[|s| - 1]) {
      var init, last := s[..|s| - 1], s[|s| - 1];
      var tail := TrimRightParts(init);
      r := tail + [last];
      Regroup(TrimRight(init), tail, [last]);
      assert s == init + [last];
    }
  }

  lemma Regroup(a: string, b: string, c: string)
    ensures (a + b) + c == a + (b + c)
  {
  }

  /** Trimming takes white space off both ends, and nothing else. */
  lemma {:induction false} TrimSpaceParts(s: string) returns (l: string, r: string)
    ensures Within(s, l, TrimSpace(s), r)
  {
    if s != "" && IsSpace(s[0]) {
      var left, right := TrimSpaceParts(s[1..]);
      l, r := [s[0]] + left, right;
      assert s == [s[0]] + s[1..];
    } else {
      l := "";
      r := TrimRightParts(s);
      TrimRightEnds(s);
      assert s == TrimSpace(s) + r;
    }
  }

  /** All of it: no other text is left by taking white space off both ends. */
  lemma TrimSpaceExactly(s: string, t: string)
    ensures TrimSpace(s) == t <==> exists l, r :: Within(s, l, t, r)
  {
    var l, r := TrimSpaceParts(s);
    if l', t', r' :| t' == t && Within(s, l', t', r') { WithinUnique(s, l, TrimSpace(s), r, l', t, r'); }
  }

  /** The ends reach exactly to the first and from the last character that is not white space. */
  lemma WithinEnds(s: string, l: string, t: string, r: string)
    requires Within(s, l, t, r)
    ensures |s| == |l| + |t| + |r| && t == s[|l|..|s| - |r|]
    ensures t == "" ==> Blank(s)
    ensures t != "" ==> !IsSpace(s[|l|]) && !IsSpace(s[|s| - |r| - 1])
    ensures forall k :: 0 <= k < |l| || |s| - |r| <= k < |s| ==> IsSpace(s[k])
  {
    forall k | |s| - |r| <= k < |s| ensures IsSpace(s[k]) { assert s[k] == r[k - |l| - |t|]; }
    forall k | 0 <= k < |l| ensures IsSpace(s[k]) { assert s[k] == l[k]; }
    if t != "" { assert s[|l|] == t[0] && s[|l| + |t| - 1] == t[|t| - 1]; }
  }

  lemma WithinUnique(s: string, l: string, t: string, r: string, l': string, t': string, r': string)
    requires Within(s, l, t, r) && Within(s, l', t', r')
    ensures t == t'
  {
    WithinEnds(s, l, t, r);
    WithinEnds(s, l', t', r');
  }

  /** A number in decimal digits, without leading zeros. */
  function Decimal(n: nat): string {
    (if n < 10 then "" else Decimal(n / 10)) + [('0' as int + n % 10) as char]
  }

  predicate HasPrefix(s: string, prefix: string) {
    prefix <= s
  }

  predicate OccursAt(s: string, sub: string, i: nat) {
    i + |sub| <= |s| && s[i..i + |sub|] == sub
  }

  /** strings.Contains. */
  predicate Contains(s: string, sub: string) {
    exists i: nat :: i <= |s| && OccursAt(s, sub, i)
  }

  ghost predicate Around(s: string, before: string, sub: string, after: string) { s == before + sub + after }

  lemma ContainsExactly(s: string, sub: string)
    ensures Contains(s, sub) <==> exists before, after :: Around(s, before, sub, after)
  {
    if i: nat :| i <= |s| && OccursAt(s, sub, i) {
      assert s == s[..i] + s[i..i + |sub|] + s[i + |sub|..];
      assert Around(s, s[..i], sub, s[i + |sub|..]);
    }
    if before, after :| Around(s, before, sub, after) {
      assert OccursAt(s, sub, |before|);
    }
  }

  /** The position of the first c in s, or |s| when there is none. */
  function IndexOf(s: string, c: char): (i: nat)
    ensures i <= |s|
    ensures forall k :: 0 <= k < i ==> s[k] != c
    ensures i < |s| ==> s[i] == c
  {
    if s == "" || s[0] == c then 0 else 1 + IndexOf(s[1..], c)
  }

  lemma IndexOfUnique(s: string, c: char, i: nat)
    requires i <= |s| && (forall k :: 0 <= k < i ==> s[k] != c) && (i < |s| ==> s[i] == c)
    ensures IndexOf(s, c) == i
  {
    var j := IndexOf(s, c);
    assert !(j < i) && !(i < j);
  }

  /** Go's < on strings. */
  predicate Less(a: string, b: string) {
    b != "" && (a == "" || a[0] < b[0] || (a[0] == b[0] && Less(a[1..], b[1..])))
  }

  /** The strings part ways at i: there a ends, or has the smaller character. */
  ghost predicate SmallerAt(a: string, b: string, i: nat) {
    i <= |a| && i < |b| && a[..i] == b[..i] && (i == |a| || a[i] < b[i])
  }

  ghost predicate Precedes(a: string, b: string) { exists i: nat :: SmallerAt(a, b, i) }

  lemma SmallerFirst(a: string, b: string, i: nat)
    requires SmallerAt(a, b, i)
    ensures b != "" && (a == "" || a[0] < b[0] || (i > 0 && a[0] == b[0]))
  {
    if i > 0 { assert a[..i][0] == a[0] && b[..i][0] == b[0]; }
  }

  /** It is the lexicographic order: a proper prefix comes first, otherwise the first difference decides. */
  lemma {:induction false} LessExactly(a: string, b: string)
    ensures Less(a, b) <==> Precedes(a, b)
  {
    if b == "" || a == "" || a[0] != b[0] {
      if Less(a, b) { assert SmallerAt(a, b, 0); }
      forall i: nat | SmallerAt(a, b, i) ensures Less(a, b) { SmallerFirst(a, b, i); }
    } else {
      LessExactly(a[1..], b[1..]);
      if i: nat :| SmallerAt(a[1..], b[1..], i) {
        assert a[..i + 1] == [a[0]] + a[1..][..i] && b[..i + 1] == [b[0]] + b[1..][..i];
        assert SmallerAt(a, b, i + 1);
      }
      if i: nat :| SmallerAt(a, b, i) {
        assert i > 0;
        assert a[1..][..i - 1] == a[..i][1..] && b[1..][..i - 1] == b[..i][1..];
        assert SmallerAt(a[1..], b[1..], i - 1);
      }
    }
  }

  lemma LessIrreflexive(a: string)
    ensures !Less(a, a)
  {
    if a != "" { LessIrreflexive(a[1..]); }
  }

  lemma LessAsymmetric(a: string, b: string)
    requires Less(a, b)
    ensures !Less(b, a)
  {
    if a != "" && a[0] == b[0] { LessAsymmetric(a[1..], b[1..]); }
  }

  lemma LessTotal(a: string, b: string)
    ensures a == b || Less(a, b) || Less(b, a)
  {
    if a != "" && b != "" && a[0] == b[0] {
      LessTotal(a[1..], b[1..]);
      assert a == [a[0]] + a[1..] && b == [b[0]] + b[1..];
    }
  }

  lemma LessTransitive(a: string, b: string, c: string)
    requires Less(a, b) && Less(b, c)
    ensures Less(a, c)
  {
    if a != "" && a[0] == b[0] == c[0] { LessTransitive(a[1..], b[1..], c[1..]); }
  }
}
