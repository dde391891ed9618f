/** Redaction of JSON documents by JSON Pointers (protocol/protocol.go); sections 3 and 4 of RFC 6901. */
module Redaction {
  import opened Wrappers
  import opened JsonText
  import opened Sequences
  import Text

  const MARKER := Str("[redacted]")

  // ----- Pointer syntax -------------------------------------------------------------------------

  function Split(s: string): (parts: seq<string>)
    ensures parts != []
  {
    if s == "" then [""]
    else if s[0] == '/' then [""] + Split(s[1..])
    else var rest := Split(s[1..]); [[s[0]] + rest[0]] + rest[1..]
  }

  /** strings.ReplaceAll of the two characters ab by c, with a != b. */
  function ReplaceAll(s: string, a: char, b: char, c: char): string {
    if |s| >= 2 && s[0] == a && s[1] == b then [c] + ReplaceAll(s[2..], a, b, c)
    else if s == "" then ""
    else [s[0]] + ReplaceAll(s[1..], a, b, c)
  }

  function Unescape(token: string): string {
    ReplaceAll(ReplaceAll(token, '~', '1', '/'), '~', '0', '~')
  }

  function UnescapeAll(parts: seq<string>): (r: seq<string>)
    ensures |r| == |parts|
    ensures forall i :: 0 <= i < |parts| ==> r[i] == Unescape(parts[i])
  {
    seq(|parts|, i requires 0 <= i < |parts| => Unescape(parts[i]))
  }

  /** The reference tokens of a pointer; None for text that is not a pointer. */
  function Parts(pointer: string): Option<seq<string>> {
    if pointer == "" then Some([])
    else if pointer[0] != '/' then None
    else Some(UnescapeAll(Split(pointer[1..])))
  }

  method PointerParts(pointer: string) returns (parts: Option<seq<string>>)
    ensures parts == Parts(pointer)
  {
    if pointer == "" { return Some([]); }
    if pointer[0] != '/' { return None; }
    var tokens := Split(pointer[1..]);
    for i := 0 to |tokens|
      invariant |tokens| == |Split(pointer[1..])|
      invariant forall k :: 0 <= k < i ==> tokens[k] == Unescape(Split(pointer[1..])[k])
      invariant forall k :: i <= k < |tokens| ==> tokens[k] == Split(pointer[1..])[k]
    {
      tokens := tokens[i := Unescape(tokens[i])];
    }
    assert tokens == UnescapeAll(Split(pointer[1..]));
    return Some(tokens);
  }

  /** Section 3 of RFC 6901: ~ is written ~0 and / is written ~1. */
  function Escape(token: string): string {
    if token == "" then ""
    else (if token[0] == '~' then "~0" else if token[0] == '/' then "~1" else [token[0]]) + Escape(token[1..])
  }

  function Print(tokens: seq<string>): string {
    if tokens == [] then "" else "/" + Escape(tokens[0]) + Print(tokens[1..])
  }

  /** The text between the passes: slashes restored, tildes still escaped. */
  function EscapeTildes(token: string): string {
    if token == "" then ""
    else (if token[0] == '~' then "~0" else [token[0]]) + EscapeTildes(token[1..])
  }

  lemma Passes(c: char, s: string, a: char, b: char, r: char)
    requires c != a || s == "" || s[0] != b
    ensures ReplaceAll([c] + s, a, b, r) == [c] + ReplaceAll(s, a, b, r)
  {
    assert ([c] + s)[1..] == s;
  }

  lemma Replaces(s: string, a: char, b: char, r: char)
    ensures ReplaceAll([a] + ([b] + s), a, b, r) == [r] + ReplaceAll(s, a, b, r)
  {
    assert ([a] + ([b] + s))[2..] == s;
  }

  lemma EscapeCons(token: string)
    requires token != ""
    ensures var e := Escape(token[1..]);
      Escape(token) ==
        if token[0] == '~' then ['~'] + (['0'] + e) else if token[0] == '/' then ['~'] + (['1'] + e) else [token[0]] + e
  {
  }

  lemma EscapeTildesCons(token: string)
    requires token != ""
    ensures var e := EscapeTildes(token[1..]);
      EscapeTildes(token) == if token[0] == '~' then ['~'] + (['0'] + e) else [token[0]] + e
  {
  }

  lemma {:induction false} FirstPass(token: string)
    ensures ReplaceAll(Escape(token), '~', '1', '/') == EscapeTildes(token)
  {
    if token != "" {
      FirstPass(token[1..]);
      var e := Escape(token[1..]);
      EscapeCons(token);
      EscapeTildesCons(token);
      if token[0] == '~' {
        Passes('~', ['0'] + e, '~', '1', '/');
        Passes('0', e, '~', '1', '/');
      } else if token[0] == '/' {
        Replaces(e, '~', '1', '/');
      } else {
        Passes(token[0], e, '~', '1', '/');
      }
    }
  }

  lemma {:induction false} SecondPass(token: string)
    ensures ReplaceAll(EscapeTildes(token), '~', '0', '~') == token
  {
    if token != "" {
      SecondPass(token[1..]);
      var e := EscapeTildes(token[1..]);
      EscapeTildesCons(token);
      if token[0] == '~' { Replaces(e, '~', '0', '~'); } else { Passes(token[0], e, '~', '0', '~'); }
      assert token == [token[0]] + token[1..];
    }
  }

  lemma UnescapeEscape(token: string)
    ensures Unescape(Escape(token)) == token
  {
    FirstPass(token);
    SecondPass(token);
  }

  lemma {:induction false} EscapeHasNoSlash(token: string)
    ensures '/' !in Escape(token)
  {
    if token != "" { EscapeHasNoSlash(token[1..]); }
  }

  lemma {:induction false} SplitAfter(head: string, rest: string)
    requires '/' !in head
    ensures rest == "" ==> Split(head + rest) == [head]
    ensures rest != "" && rest[0] == '/' ==> Split(head + rest) == [head] + Split(rest[1..])
  {
    if head == "" {
      assert head + rest == rest;
    } else {
      SplitAfter(head[1..], rest);
      assert (head + rest)[1..] == head[1..] + rest;
      assert head == [head[0]] + head[1..];
    }
  }

  lemma SplitPrint(token: string, rest: string)
    requires rest == "" || rest[0] == '/'
    ensures Split(Escape(token) + rest) == [Escape(token)] + if rest == "" then [] else Split(rest[1..])
  {
    EscapeHasNoSlash(token);
    SplitAfter(Escape(token), rest);
  }

  lemma UnescapeCons(part: string, parts: seq<string>)
    ensures UnescapeAll([part] + parts) == [Unescape(part)] + UnescapeAll(parts)
  {
  }

  lemma PartsOfSplit(part: string, rest: string, tail: seq<string>)
    requires Split(part + rest) == [part] + tail
    ensures Parts("/" + part + rest) == Some([Unescape(part)] + UnescapeAll(tail))
  {
    var pointer := "/" + part + rest;
    assert pointer[1..] == part + rest;
    UnescapeCons(part, tail);
  }

  lemma PartsOfPrinted(token: string, rest: string)
    requires rest == "" || rest[0] == '/'
    ensures Parts("/" + Escape(token) + rest) == Some([token] + Parts(rest).value)
  {
    UnescapeEscape(token);
    SplitPrint(token, rest);
    PartsOfSplit(Escape(token), rest, if rest == "" then [] else Split(rest[1..]));
  }

  /** Reading inverts writing: any list of tokens, empty tokens and tokens of slashes and tildes
      included, is the parts of the pointer it is written as. */
  lemma {:induction false} PartsInvertPrint(tokens: seq<string>)
    ensures Parts(Print(tokens)) == Some(tokens)
  {
    if tokens != [] {
      PartsInvertPrint(tokens[1..]);
      PartsOfPrinted(tokens[0], Print(tokens[1..]));
      assert tokens == [tokens[0]] + tokens[1..];
    }
  }

  /** Reading a token in one pass: ~1 is a slash, ~0 a tilde, everything else itself. */
  function OnePass(token: string): string {
    if |token| >= 2 && token[0] == '~' && token[1] == '1' then "/" + OnePass(token[2..])
    else if |token| >= 2 && token[0] == '~' && token[1] == '0' then "~" + OnePass(token[2..])
    else if token == "" then ""
    else [token[0]] + OnePass(token[1..])
  }

  lemma ReplaceStep(s: string, t: string, a: char, b: char, c: char)
    requires s != "" && (s[0] != a || |s| == 1 || s[1] != b)
    requires t == s[1..]
    ensures ReplaceAll(s, a, b, c) == [s[0]] + ReplaceAll(t, a, b, c)
  {
  }

  /** The two passes over a token do what one pass would, for text that no escaping produces as well. */
  lemma {:induction false} UnescapeExactly(token: string)
    ensures Unescape(token) == OnePass(token)
  {
    if token != "" {
      var first := ReplaceAll(token, '~', '1', '/');
      if |token| >= 2 && token[0] == '~' && token[1] == '1' {
        UnescapeExactly(token[2..]);
        ReplaceStep(first, first[1..], '~', '0', '~');
      } else if |token| >= 2 && token[0] == '~' && token[1] == '0' {
        UnescapeExactly(token[2..]);
        ReplaceStep(token[1..], token[2..], '~', '1', '/');
        assert first[2..] == ReplaceAll(token[2..], '~', '1', '/');
      } else {
        UnescapeExactly(token[1..]);
        assert first[1..] == ReplaceAll(token[1..], '~', '1', '/');
      }
    }
  }

  /** A pointer as it stands: each raw token after a slash. */
  function Pointer(raw: seq<string>): string {
    if raw == [] then "" else "/" + raw[0] + Pointer(raw[1..])
  }

  predicate NoSlashes(raw: seq<string>) { forall i :: 0 <= i < |raw| ==> '/' !in raw[i] }

  /** Whatever stands between the slashes is one token. */
  lemma {:induction false} PartsOfPointer(raw: seq<string>)
    requires NoSlashes(raw)
    ensures Parts(Pointer(raw)) == Some(UnescapeAll(raw))
  {
    if raw != [] {
      var rest := Pointer(raw[1..]);
      PartsOfPointer(raw[1..]);
      SplitAfter(raw[0], rest);
      PartsOfSplit(raw[0], rest, if rest == "" then [] else Split(rest[1..]));
      UnescapeCons(raw[0], raw[1..]);
      assert raw == [raw[0]] + raw[1..];
    }
  }

  lemma Regroup(a: string, b: string, c: string)
    ensures "/" + (a + b) + c == "/" + (a + (b + c))
  {
  }

  lemma {:induction false} SplitIsPointer(s: string)
    ensures NoSlashes(Split(s)) && Pointer(Split(s)) == "/" + s
  {
    if s != "" {
      SplitIsPointer(s[1..]);
      var rest := Split(s[1..]);
      assert s == [s[0]] + s[1..];
      if s[0] == '/' {
        assert ([""] + rest)[1..] == rest;
      } else {
        var tail := Pointer(rest[1..]);
        assert ([[s[0]] + rest[0]] + rest[1..])[1..] == rest[1..];
        assert rest[0] + tail == s[1..] by { assert ("/" + rest[0] + tail)[1..] == rest[0] + tail && ("/" + s[1..])[1..] == s[1..]; }
        Regroup([s[0]], rest[0], tail);
      }
    }
  }

  /** The parts are what stands between the slashes, each read in one pass. */
  ghost predicate ReadFrom(parts: seq<string>, pointer: string, raw: seq<string>) {
    && NoSlashes(raw) && Pointer(raw) == pointer && |parts| == |raw|
    && forall i :: 0 <= i < |raw| ==> parts[i] == OnePass(raw[i])
  }

  /** Every text that is empty or begins with a slash is a pointer, read token by token in one pass;
      no other text is. */
  lemma PartsExactly(pointer: string)
    ensures Parts(pointer).Some? <==> pointer == "" || pointer[0] == '/'
    ensures Parts(pointer).Some? ==> exists raw :: ReadFrom(Parts(pointer).value, pointer, raw)
  {
    if pointer != "" && pointer[0] == '/' {
      var raw := Split(pointer[1..]);
      SplitIsPointer(pointer[1..]);
      assert pointer == "/" + pointer[1..];
      forall i | 0 <= i < |raw| ensures Parts(pointer).value[i] == OnePass(raw[i]) { UnescapeExactly(raw[i]); }
      assert ReadFrom(Parts(pointer).value, pointer, raw);
    } else if pointer == "" {
      assert ReadFrom([], pointer, []);
    }
  }

  // ----- Redaction ------------------------------------------------------------------------------

  predicate IsDigit(c: char) { '0' <= c <= '9' }

  function DigitsValue(s: string): nat
    requires forall c :: c in s ==> IsDigit(c)
  {
    if s == "" then 0
    else
      assert IsDigit(s[|s| - 1]);
      DigitsValue(s[..|s| - 1]) * 10 + (s[|s| - 1] as int - '0' as int)
  }

  /** strconv.Atoi: decimal digits with an optional sign. Leading zeros and "+" are accepted, which
      section 4 of RFC 6901 is not; a number too large for int64 is refused. */
  function Atoi(s: string): Option<int> {
    var negative := s != "" && s[0] == '-';
    var digits := if s != "" && (s[0] == '-' || s[0] == '+') then s[1..] else s;
    if digits == "" || !(forall c :: c in digits ==> IsDigit(c)) then None
    else
      var n: int := DigitsValue(digits);
      if negative then (if n <= 0x8000_0000_0000_0000 then Some(-n) else None)
      else if n < 0x8000_0000_0000_0000 then Some(n) else None
  }

  /** The array slot a token names. */
  function Slot(token: string, length: nat): (i: Option<nat>)
    ensures i.Some? ==> i.value < length
  {
    match Atoi(token)
    case Some(n) => if 0 <= n < length then Some(n) else None
    case None => None
  }

  predicate Digits(s: string) { forall c :: c in s ==> IsDigit(c) }

  lemma {:induction false} DecimalValue(n: nat)
    ensures Digits(Text.Decimal(n)) && Text.Decimal(n) != "" && DigitsValue(Text.Decimal(n)) == n
  {
    if n >= 10 { DecimalValue(n / 10); }
    DigitsSnoc(if n < 10 then "" else Text.Decimal(n / 10), n % 10);
  }

  lemma DigitsSnoc(init: string, digit: nat)
    requires Digits(init) && digit < 10
    ensures var s := init + [('0' as int + digit) as char]; Digits(s) && DigitsValue(s) == DigitsValue(init) * 10 + digit
  {
    var s := init + [('0' as int + digit) as char];
    assert s[..|s| - 1] == init;
  }

  lemma {:induction false} LeadingZero(s: string)
    requires Digits(s)
    ensures Digits("0" + s) && DigitsValue("0" + s) == DigitsValue(s)
  {
    var z := "0" + s;
    if s != "" {
      LeadingZero(s[..|s| - 1]);
      assert z[..|z| - 1] == "0" + s[..|s| - 1] && z[|z| - 1] == s[|s| - 1];
    }
  }

  /** Digits with any number of leading zeros taken off. */
  function NoZeros(s: string): string
    requires Digits(s)
  {
    if |s| > 1 && s[0] == '0' then NoZeros(s[1..]) else s
  }

  lemma {:induction false} NoZerosValue(s: string)
    requires Digits(s)
    ensures Digits(NoZeros(s)) && DigitsValue(NoZeros(s)) == DigitsValue(s)
    ensures s != "" ==> NoZeros(s) != "" && (NoZeros(s)[0] == '0' ==> |NoZeros(s)| == 1)
  {
    if |s| > 1 && s[0] == '0' {
      NoZerosValue(s[1..]);
      LeadingZero(s[1..]);
      assert s == "0" + s[1..];
    }
  }

  lemma {:induction false} ValueDecimal(s: string)
    requires Digits(s) && s != "" && (s[0] == '0' ==> |s| == 1)
    ensures Text.Decimal(DigitsValue(s)) == s && (s[0] != '0' ==> DigitsValue(s) > 0)
  {
    var init, last := s[..|s| - 1], s[|s| - 1];
    assert s == init + [last] && IsDigit(last);
    if init != "" {
      ValueDecimal(init);
      var n := DigitsValue(s);
      assert n / 10 == DigitsValue(init) && n % 10 == last as int - '0' as int;
    }
  }

  /** The decimal number of an item names that item, in every array that has it, and none in any other. */
  lemma SlotOfDecimal(k: nat, length: nat)
    requires k < 0x8000_0000_0000_0000
    ensures Slot(Text.Decimal(k), length) == if k < length then Some(k) else None
  {
    DecimalValue(k);
    SlotOfDigits(Text.Decimal(k), length);
  }

  lemma SlotOfDigits(s: string, length: nat)
    requires Digits(s) && s != "" && DigitsValue(s) < 0x8000_0000_0000_0000
    ensures Slot(s, length) == if DigitsValue(s) < length then Some(DigitsValue(s)) else None
  {
    assert IsDigit(s[0]);
  }

  lemma NumberExactly(digits: string, k: nat)
    requires Digits(digits) && digits != ""
    ensures DigitsValue(digits) == k <==> NoZeros(digits) == Text.Decimal(k)
  {
    DecimalValue(k);
    NoZerosValue(digits);
    ValueDecimal(NoZeros(digits));
  }

  /** All the tokens that name an item: its decimal number, after a plus sign and leading zeros if any;
      a minus sign goes with zero alone. */
  lemma SlotExactly(token: string, length: nat, k: nat)
    requires k < length
    ensures Slot(token, length) == Some(k) <==>
      && k < 0x8000_0000_0000_0000
      && var signed := token != "" && (token[0] == '-' || token[0] == '+');
         var digits := if signed then token[1..] else token;
         && digits != "" && Digits(digits) && NoZeros(digits) == Text.Decimal(k) && (signed && token[0] == '-' ==> k == 0)
  {
    var digits := if token != "" && (token[0] == '-' || token[0] == '+') then token[1..] else token;
    if digits != "" && Digits(digits) { NumberExactly(digits, k); }
  }

  function RedactAt(current: Json, parts: seq<string>): Json
    decreases |parts|
  {
    if parts == [] then current
    else match current
      case Obj(fields) =>
        if parts[0] !in fields then current
        else if |parts| == 1 then Obj(fields[parts[0] := MARKER])
        else Obj(fields[parts[0] := RedactAt(fields[parts[0]], parts[1..])])
      case Arr(items) =>
        (match Slot(parts[0], |items|)
         case None => current
         case Some(i) =>
           if |parts| == 1 then Arr(items[i := MARKER])
           else Arr(items[i := RedactAt(items[i], parts[1..])]))
      case _ => current
  }

  /** What a list of tokens leads to. */
  function Resolve(current: Json, parts: seq<string>): Option<Json>
    decreases |parts|
  {
    if parts == [] then Some(current)
    else match current
      case Obj(fields) => if parts[0] in fields then Resolve(fields[parts[0]], parts[1..]) else None
      case Arr(items) =>
        (match Slot(parts[0], |items|)
         case None => None
         case Some(i) => Resolve(items[i], parts[1..]))
      case _ => None
  }

  function RedactAll(value: Json, pointers: seq<seq<string>>): Json
    decreases |pointers|
  {
    if pointers == [] then value
    else RedactAll(RedactAt(value, pointers[0]), pointers[1..])
  }

  /** Redaction at the item with the decimal number k marks that item, or goes on inside it, and keeps
      every other item; a pointer past the end, or to no number, leaves the array alone. */
  lemma ItemRedacted(items: seq<Json>, k: nat, rest: seq<string>)
    requires k < 0x8000_0000_0000_0000
    ensures RedactAt(Arr(items), [Text.Decimal(k)] + rest) ==
      if k >= |items| then Arr(items)
      else Arr(items[k := if rest == [] then Str("[redacted]") else RedactAt(items[k], rest)])
    ensures Resolve(Arr(items), [Text.Decimal(k)] + rest) == if k < |items| then Resolve(items[k], rest) else None
  {
    var parts := [Text.Decimal(k)] + rest;
    assert parts[0] == Text.Decimal(k) && parts[1..] == rest;
    SlotOfDecimal(k, |items|);
    RedactArray(items, parts);
  }

  /** Redaction at a field marks that field, or goes on inside it, and adds none. */
  lemma FieldRedacted(fields: map<string, Json>, name: string, rest: seq<string>)
    ensures RedactAt(Obj(fields), [name] + rest) ==
      if name !in fields then Obj(fields)
      else Obj(fields[name := if rest == [] then Str("[redacted]") else RedactAt(fields[name], rest)])
    ensures Resolve(Obj(fields), [name] + rest) == if name in fields then Resolve(fields[name], rest) else None
  {
    var parts := [name] + rest;
    assert parts[0] == name && parts[1..] == rest;
  }

  /** Anything else holds nothing that a token could name. */
  lemma LeafStays(v: Json, parts: seq<string>)
    requires parts == [] || !(v.Obj? || v.Arr?)
    ensures RedactAt(v, parts) == v && Resolve(v, parts) == if parts == [] then Some(v) else None
  {
  }

  /** What is written down is what is redacted: the pointer of a decimal item number, then a place inside. */
  lemma PrintedItem(items: seq<Json>, k: nat, rest: seq<string>)
    requires k < |items| && k < 0x8000_0000_0000_0000
    ensures var pointer := Print([Text.Decimal(k)] + rest);
      Parts(pointer).Some? && RedactAll(Arr(items), [Parts(pointer).value]) ==
        Arr(items[k := if rest == [] then Str("[redacted]") else RedactAt(items[k], rest)])
  {
    PartsInvertPrint([Text.Decimal(k)] + rest);
    ItemRedacted(items, k, rest);
    var v, parts := Arr(items), [Text.Decimal(k)] + rest;
    assert RedactAll(v, [parts]) == RedactAll(RedactAt(v, parts), []);
  }

  predicate AllPointers(pointers: seq<string>) {
    forall i :: 0 <= i < |pointers| ==> Parts(pointers[i]).Some?
  }

  function Tokens(pointers: seq<string>): (ts: seq<seq<string>>)
    requires AllPointers(pointers)
    ensures |ts| == |pointers| && forall i :: 0 <= i < |ts| ==> ts[i] == Parts(pointers[i]).value
  {
    seq(|pointers|, i requires 0 <= i < |pointers| => Parts(pointers[i]).value)
  }

  /** Redact works on a copy, so a text that is not a pointer leaves nothing half redacted. */
  method Redact(value: Json, pointers: seq<string>) returns (r: Option<Json>)
    ensures r == if AllPointers(pointers) then Some(RedactAll(value, Tokens(pointers))) else None
  {
    var clone := value;
    for i := 0 to |pointers|
      invariant forall k :: 0 <= k < i ==> Parts(pointers[k]).Some?
      invariant AllPointers(pointers) ==> RedactAll(value, Tokens(pointers)) == RedactAll(clone, Tokens(pointers)[i..])
    {
      var parts := PointerParts(pointers[i]);
      if parts.None? { return None; }
      clone := RedactAt(clone, parts.value);
      assert AllPointers(pointers) ==> Tokens(pointers)[i..][1..] == Tokens(pointers)[i + 1..];
    }
    return Some(clone);
  }

  /** What redaction leaves of a member that the first part names. */
  function Member(m: Json, parts: seq<string>): Json
    requires parts != []
  {
    if |parts| == 1 then MARKER else RedactAt(m, parts[1..])
  }

  lemma {:induction false} MembersCommute(m: Json, p: seq<string>, q: seq<string>)
    requires p != [] && q != []
    ensures Member(Member(m, p), q) == Member(Member(m, q), p)
    decreases |p|, 0
  {
    if |p| > 1 && |q| > 1 { RedactCommutes(m, p[1..], q[1..]); }
  }

  lemma MapUpdatesCommute<K, V>(m: map<K, V>, j: K, k: K, x: V, y: V)
    requires j != k
    ensures m[j := x][k := y] == m[k := y][j := x]
  {
  }

  lemma SeqUpdatesCommute<T>(s: seq<T>, j: nat, k: nat, x: T, y: T)
    requires j != k && j < |s| && k < |s|
    ensures s[j := x][k := y] == s[k := y][j := x]
  {
  }

  lemma RedactObject(fields: map<string, Json>, p: seq<string>)
    requires p != []
    ensures RedactAt(Obj(fields), p) ==
      if p[0] in fields then Obj(fields[p[0] := Member(fields[p[0]], p)]) else Obj(fields)
  {
  }

  lemma RedactArray(items: seq<Json>, p: seq<string>)
    requires p != []
    ensures var i := Slot(p[0], |items|);
      RedactAt(Arr(items), p) == if i.Some? then Arr(items[i.value := Member(items[i.value], p)]) else Arr(items)
  {
  }

  lemma ObjectsCommute(fields: map<string, Json>, p: seq<string>, q: seq<string>)
    requires p != [] && q != [] && p[0] in fields && q[0] in fields
    ensures RedactAt(RedactAt(Obj(fields), p), q) == RedactAt(RedactAt(Obj(fields), q), p)
    decreases |p|, 1
  {
    var x, y := Member(fields[p[0]], p), Member(fields[q[0]], q);
    RedactObject(fields, p);
    RedactObject(fields, q);
    RedactObject(fields[p[0] := x], q);
    RedactObject(fields[q[0] := y], p);
    if p[0] == q[0] { MembersCommute(fields[p[0]], p, q); } else { MapUpdatesCommute(fields, p[0], q[0], x, y); }
  }

  lemma ArraysCommute(items: seq<Json>, p: seq<string>, q: seq<string>, i: nat, j: nat)
    requires p != [] && q != [] && Slot(p[0], |items|) == Some(i) && Slot(q[0], |items|) == Some(j)
    ensures RedactAt(RedactAt(Arr(items), p), q) == RedactAt(RedactAt(Arr(items), q), p)
    decreases |p|, 1
  {
    var x, y := Member(items[i], p), Member(items[j], q);
    RedactArray(items, p);
    RedactArray(items, q);
    RedactArray(items[i := x], q);
    RedactArray(items[j := y], p);
    if i == j { MembersCommute(items[i], p, q); } else { SeqUpdatesCommute(items, i, j, x, y); }
  }

  /** Redacting at two places in either order gives the same document, nested places included. */
  lemma {:induction false} RedactCommutes(v: Json, p: seq<string>, q: seq<string>)
    ensures RedactAt(RedactAt(v, p), q) == RedactAt(RedactAt(v, q), p)
    decreases |p|, 2
  {
    if p != [] && q != [] {
      match v
      case Obj(fields) =>
        RedactObject(fields, p);
        RedactObject(fields, q);
        if p[0] in fields && q[0] in fields { ObjectsCommute(fields, p, q); }
      case Arr(items) =>
        RedactArray(items, p);
        RedactArray(items, q);
        var i, j := Slot(p[0], |items|), Slot(q[0], |items|);
        if i.Some? && j.Some? { ArraysCommute(items, p, q, i.value, j.value); }
      case _ =>
    }
  }

  /** A second time changes nothing. */
  lemma {:induction false} RedactTwice(v: Json, p: seq<string>)
    ensures RedactAt(RedactAt(v, p), p) == RedactAt(v, p)
    decreases |p|
  {
    if |p| > 1 {
      match v
      case Obj(fields) => if p[0] in fields { RedactTwice(fields[p[0]], p[1..]); }
      case Arr(items) =>
        var i := Slot(p[0], |items|);
        if i.Some? { RedactTwice(items[i.value], p[1..]); }
      case _ =>
    }
  }

  lemma {:induction false} PullOut(v: Json, ps: seq<seq<string>>, i: nat)
    requires i < |ps|
    ensures RedactAll(v, ps) == RedactAll(RedactAt(v, ps[i]), ps[..i] + ps[i + 1..])
    decreases |ps|
  {
    if i == 0 {
      assert ps[..0] + ps[1..] == ps[1..];
    } else {
      PullOut(RedactAt(v, ps[0]), ps[1..], i - 1);
      RedactCommutes(v, ps[0], ps[i]);
      var rest := ps[..i] + ps[i + 1..];
      assert rest[0] == ps[0] && rest[1..] == ps[1..][..i - 1] + ps[1..][i..];
    }
  }

  /** Where the head of one list is in a rearrangement, and that the rest is one of the tail. */
  lemma FirstAmong<T>(ps: seq<T>, qs: seq<T>) returns (i: nat)
    requires ps != [] && multiset(ps) == multiset(qs)
    ensures i < |qs| && qs[i] == ps[0] && multiset(ps[1..]) == multiset(qs[..i] + qs[i + 1..])
  {
    assert ps[0] in multiset(qs);
    i :| 0 <= i < |qs| && qs[i] == ps[0];
    RemoveAt(qs, i);
    Front(ps);
  }

  /** The order of the pointers does not matter. */
  lemma {:induction false} OrderIrrelevant(v: Json, ps: seq<seq<string>>, qs: seq<seq<string>>)
    requires multiset(ps) == multiset(qs)
    ensures RedactAll(v, ps) == RedactAll(v, qs)
    decreases |ps|
  {
    if ps == [] {
      assert qs == [] by { assert |multiset(qs)| == |qs| == 0; }
    } else {
      var i := FirstAmong(ps, qs);
      PullOut(v, qs, i);
      OrderIrrelevant(RedactAt(v, ps[0]), ps[1..], qs[..i] + qs[i + 1..]);
    }
  }

  lemma {:induction false} RedactAllAbsorbs(v: Json, ps: seq<seq<string>>, p: seq<string>)
    requires p in ps
    ensures RedactAll(RedactAt(v, p), ps) == RedactAll(v, ps)
    ensures RedactAt(RedactAll(v, ps), p) == RedactAll(v, ps)
    decreases |ps|
  {
    if p == ps[0] {
      RedactTwice(v, p);
      RedactAllCommutes(RedactAt(v, p), ps[1..], p);
    } else {
      RedactCommutes(v, p, ps[0]);
      RedactAllAbsorbs(RedactAt(v, ps[0]), ps[1..], p);
    }
  }

  lemma {:induction false} RedactAllCommutes(v: Json, ps: seq<seq<string>>, p: seq<string>)
    ensures RedactAt(RedactAll(v, ps), p) == RedactAll(RedactAt(v, p), ps)
    decreases |ps|
  {
    if ps != [] {
      RedactCommutes(v, ps[0], p);
      RedactAllCommutes(RedactAt(v, ps[0]), ps[1..], p);
    }
  }

  /** Redacting again, by any selection of the same pointers in any number and order, changes nothing. */
  lemma {:induction false} RedactionIdempotent(v: Json, ps: seq<seq<string>>, again: seq<seq<string>>)
    requires forall p :: p in again ==> p in ps
    ensures RedactAll(RedactAll(v, ps), again) == RedactAll(v, ps)
    decreases |again|
  {
    if again != [] {
      RedactAllAbsorbs(v, ps, again[0]);
      RedactionIdempotent(v, ps, again[1..]);
    }
  }

  lemma {:induction false} ResolveAfterOne(v: Json, p: seq<string>)
    requires p != []
    ensures Resolve(RedactAt(v, p), p) in {None, Some(MARKER)}
    ensures Resolve(RedactAt(v, p), p).Some? <==> Resolve(v, p).Some?
    decreases |p|
  {
    match v
    case Obj(fields) => if p[0] in fields && |p| > 1 { ResolveAfterOne(fields[p[0]], p[1..]); }
    case Arr(items) =>
      var i := Slot(p[0], |items|);
      if i.Some? && |p| > 1 { ResolveAfterOne(items[i.value], p[1..]); }
    case _ =>
  }

  /** A pointer changes the document exactly when it has a token and leads to a value that is not
      the marker yet. */
  lemma {:induction false} ChangesExactly(v: Json, p: seq<string>)
    ensures RedactAt(v, p) == v <==> p == [] || Resolve(v, p) in {None, Some(MARKER)}
    decreases |p|
  {
    if p != [] {
      match v
      case Obj(fields) =>
        if p[0] in fields {
          var m := Member(fields[p[0]], p);
          if |p| > 1 { ChangesExactly(fields[p[0]], p[1..]); }
          assert fields[p[0] := m] == fields <==> m == fields[p[0]];
        }
      case Arr(items) =>
        var i := Slot(p[0], |items|);
        if i.Some? {
          var m := Member(items[i.value], p);
          if |p| > 1 { ChangesExactly(items[i.value], p[1..]); }
          assert items[i.value := m][i.value] == m;
          assert items[i.value := m] == items <==> m == items[i.value];
        }
      case _ =>
    }
  }

  /** After redaction every pointer of the list but the empty one leads to the marker or nowhere. */
  lemma NothingShowsThrough(v: Json, ps: seq<seq<string>>, p: seq<string>)
    requires p in ps && p != []
    ensures Resolve(RedactAll(v, ps), p) in {None, Some(MARKER)}
  {
    RedactAllAbsorbs(v, ps, p);
    ResolveAfterOne(RedactAll(v, ps), p);
  }

  /** Tokens p and q part ways inside v: at some depth they name different members of one container,
      or one of them leads nowhere. */
  predicate Apart(v: Json, p: seq<string>, q: seq<string>)
    decreases |p|
  {
    if p == [] || q == [] then false
    else match v
      case Obj(fields) => p[0] !in fields || q[0] !in fields || p[0] != q[0] || Apart(fields[p[0]], p[1..], q[1..])
      case Arr(items) =>
        var i, j := Slot(p[0], |items|), Slot(q[0], |items|);
        i.None? || j.None? || i != j || Apart(items[i.value], p[1..], q[1..])
      case _ => true
  }

  /** A value that is neither at, below nor above a pointer's place is left exactly as it was, and stays
      so placed with respect to every other place. */
  lemma {:induction false} ApartUnchanged(v: Json, p: seq<string>, q: seq<string>)
    requires Apart(v, p, q)
    ensures Resolve(RedactAt(v, p), q) == Resolve(v, q)
    decreases |p|
  {
    match v
    case Obj(fields) =>
      if p[0] in fields && |p| > 1 && p[0] == q[0] { ApartUnchanged(fields[p[0]], p[1..], q[1..]); }
    case Arr(items) =>
      var i := Slot(p[0], |items|);
      if i.Some? && |p| > 1 && i == Slot(q[0], |items|) { ApartUnchanged(items[i.value], p[1..], q[1..]); }
    case _ =>
  }

  lemma {:induction false} ApartStays(v: Json, r: seq<string>, p: seq<string>, q: seq<string>)
    requires Apart(v, p, q) && Apart(v, r, q)
    ensures Apart(RedactAt(v, r), p, q)
    decreases |p|
  {
    match v
    case Obj(fields) =>
      if r[0] in fields && p[0] == q[0] == r[0] && |r| > 1 {
        ApartStays(fields[r[0]], r[1..], p[1..], q[1..]);
      }
    case Arr(items) =>
      var i := Slot(r[0], |items|);
      if i.Some? && Slot(p[0], |items|) == i == Slot(q[0], |items|) && |r| > 1 {
        ApartStays(items[i.value], r[1..], p[1..], q[1..]);
      }
    case _ =>
  }

  /** Redaction leaves every value alone that no pointer of the list leads to, into or past. */
  lemma {:induction false} RestUnchanged(v: Json, ps: seq<seq<string>>, q: seq<string>)
    requires forall p :: p in ps ==> Apart(v, p, q)
    ensures Resolve(RedactAll(v, ps), q) == Resolve(v, q)
    decreases |ps|
  {
    if ps != [] {
      ApartUnchanged(v, ps[0], q);
      forall p | p in ps[1..] ensures Apart(RedactAt(v, ps[0]), p, q) { ApartStays(v, ps[0], p, q); }
      RestUnchanged(RedactAt(v, ps[0]), ps[1..], q);
    }
  }
}
