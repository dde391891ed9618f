/** Password-based key derivation (auth/accounts.go) against section 5.2 of RFC 8018. The
    pseudorandom function is a parameter: any function with 32-byte results, HMAC-SHA256 being one. */
module Pbkdf2 {
  import opened Octets

  const HASH_LEN := 32
  const TWO_32 := 0x1_0000_0000

  ghost predicate IsPrf(prf: (Bytes, Bytes) -> Bytes) {
    forall key, message :: |prf(key, message)| == HASH_LEN
  }

  function Octet(n: nat): byte { (n % 256) as byte }

  /** Bitwise exclusive or. */
  function XorByte(a: byte, b: byte): byte { ((a as bv8) ^ (b as bv8)) as byte }

  /** The low 32 bits of a block number, most significant octet first. */
  function Counter(block: nat): Bytes {
    [Octet(block / 0x100_0000), Octet(block / 0x1_0000), Octet(block / 0x100), Octet(block)]
  }

  /** U_j of the standard, for block i. */
  function U(prf: (Bytes, Bytes) -> Bytes, password: Bytes, salt: Bytes, i: nat, j: nat): Bytes
    requires j >= 1
  {
    if j == 1 then prf(password, salt + Counter(i)) else prf(password, U(prf, password, salt, i, j - 1))
  }

  function Xor(a: Bytes, b: Bytes): (r: Bytes)
    requires |a| == |b|
    ensures |r| == |a|
  {
    seq(|a|, k requires 0 <= k < |a| => XorByte(a[k], b[k]))
  }

  /** T_i = F(P, S, c, i) = U_1 xor ... xor U_c. */
  ghost function F(prf: (Bytes, Bytes) -> Bytes, password: Bytes, salt: Bytes, c: nat, i: nat): (t: Bytes)
    requires IsPrf(prf) && c >= 1
    ensures |t| == HASH_LEN
  {
    if c == 1 then U(prf, password, salt, i, 1)
    else Xor(F(prf, password, salt, c - 1, i), U(prf, password, salt, i, c))
  }

  /** T_1 || ... || T_n. */
  ghost function Blocks(prf: (Bytes, Bytes) -> Bytes, password: Bytes, salt: Bytes, c: nat, n: nat): (r: Bytes)
    requires IsPrf(prf) && c >= 1
    ensures |r| == n * HASH_LEN
  {
    if n == 0 then [] else Blocks(prf, password, salt, c, n - 1) + F(prf, password, salt, c, n)
  }

  function BlockCount(size: nat): nat { (size + HASH_LEN - 1) / HASH_LEN }

  /** The code runs the first round whatever the iteration count. */
  function Rounds(iterations: int): (c: nat)
    ensures c >= 1 && (iterations >= 1 ==> c == iterations)
  {
    if iterations < 1 then 1 else iterations
  }

  /** DK = T_1 || ... || T_l<0..r-1>. */
  ghost function DerivedKey(prf: (Bytes, Bytes) -> Bytes, password: Bytes, salt: Bytes, c: nat, size: nat): (dk: Bytes)
    requires IsPrf(prf) && c >= 1
    ensures |dk| == size
  {
    Blocks(prf, password, salt, c, BlockCount(size))[..size]
  }

  method PBKDF2SHA256(prf: (Bytes, Bytes) -> Bytes, password: Bytes, salt: Bytes, iterations: int, size: nat)
    returns (derived: Bytes)
    requires IsPrf(prf)
    ensures derived == DerivedKey(prf, password, salt, Rounds(iterations), size)
  {
    ghost var c := Rounds(iterations);
    var out: Bytes := [];
    var block := 1;
    while |out| < size
      invariant block >= 1 && Derived(prf, password, salt, c, size, block - 1, out)
      decreases size - |out|
    {
      DerivedNext(prf, password, salt, c, size, block - 1, out);
      var value := DeriveBlock(prf, password, salt, iterations, block);
      out := out + value;
      block := block + 1;
    }
    EnoughBlocks(prf, password, salt, c, size, block - 1, out);
    return out[..size];
  }

  /** The first n blocks, none of them beyond the last one that is needed. */
  ghost predicate Derived(prf: (Bytes, Bytes) -> Bytes, password: Bytes, salt: Bytes, c: nat, size: nat, n: nat, out: Bytes)
    requires IsPrf(prf) && c >= 1
  {
    out == Blocks(prf, password, salt, c, n) && (n > 0 ==> (n - 1) * HASH_LEN < size)
  }

  lemma DerivedNext(prf: (Bytes, Bytes) -> Bytes, password: Bytes, salt: Bytes, c: nat, size: nat, n: nat, out: Bytes)
    requires IsPrf(prf) && c >= 1 && Derived(prf, password, salt, c, size, n, out) && |out| < size
    ensures Derived(prf, password, salt, c, size, n + 1, out + F(prf, password, salt, c, n + 1))
  {
  }

  lemma EnoughBlocks(prf: (Bytes, Bytes) -> Bytes, password: Bytes, salt: Bytes, c: nat, size: nat, n: nat, out: Bytes)
    requires IsPrf(prf) && c >= 1 && Derived(prf, password, salt, c, size, n, out) && |out| >= size
    ensures out[..size] == DerivedKey(prf, password, salt, c, size)
  {
    BlocksNeeded(size, n);
    if n > 0 { BlocksNeeded(size, n - 1); }
    assert n == BlockCount(size);
  }

  lemma BlocksNeeded(size: nat, n: nat)
    ensures n * HASH_LEN < size <==> n < BlockCount(size)
  {
  }

  /** The inner loop: the rounds of one block, accumulated in one buffer. */
  method DeriveBlock(prf: (Bytes, Bytes) -> Bytes, password: Bytes, salt: Bytes, iterations: int, block: nat)
    returns (t: Bytes)
    requires IsPrf(prf)
    ensures t == F(prf, password, salt, Rounds(iterations), block)
  {
    var u := prf(password, salt + Counter(block));
    FirstRound(prf, password, salt, block);
    var value := Buffer(u);
    var iteration := 1;
    while iteration < iterations
      invariant 1 <= iteration <= Rounds(iterations)
      invariant After(prf, password, salt, iteration, block, value[..], u)
    {
      u := RoundInPlace(prf, password, salt, iteration, block, value, u);
      iteration := iteration + 1;
    }
    return value[..];
  }

  /** One iteration of the inner loop. */
  method RoundInPlace(prf: (Bytes, Bytes) -> Bytes, password: Bytes, ghost salt: Bytes, ghost c: nat, ghost block: nat,
                      value: array<byte>, u: Bytes)
    returns (next: Bytes)
    requires IsPrf(prf) && c >= 1 && After(prf, password, salt, c, block, value[..], u)
    modifies value
    ensures After(prf, password, salt, c + 1, block, value[..], next)
  {
    NextRound(prf, password, salt, c, block, value[..], u);
    next := prf(password, u);
    XorInPlace(value, next);
  }

  /** append([]byte{}, u...): a buffer of its own with the same bytes. */
  method Buffer(u: Bytes) returns (value: array<byte>)
    ensures fresh(value) && value[..] == u
  {
    value := new byte[|u|](k requires 0 <= k < |u| => u[k]);
  }

  /** The accumulated block and the last round after c rounds. */
  ghost predicate After(prf: (Bytes, Bytes) -> Bytes, password: Bytes, salt: Bytes, c: nat, i: nat, t: Bytes, u: Bytes)
    requires IsPrf(prf) && c >= 1
  {
    |t| == |u| == HASH_LEN && u == U(prf, password, salt, i, c) && t == F(prf, password, salt, c, i)
  }

  lemma FirstRound(prf: (Bytes, Bytes) -> Bytes, password: Bytes, salt: Bytes, i: nat)
    requires IsPrf(prf)
    ensures var u := prf(password, salt + Counter(i)); After(prf, password, salt, 1, i, u, u)
  {
  }

  lemma NextRound(prf: (Bytes, Bytes) -> Bytes, password: Bytes, salt: Bytes, c: nat, i: nat, t: Bytes, u: Bytes)
    requires IsPrf(prf) && c >= 1 && After(prf, password, salt, c, i, t, u)
    ensures |prf(password, u)| == |t| && After(prf, password, salt, c + 1, i, Xor(t, prf(password, u)), prf(password, u))
  {
  }

  method XorInPlace(value: array<byte>, u: Bytes)
    requires value.Length == |u|
    modifies value
    ensures value[..] == Xor(old(value[..]), u)
  {
    for index := 0 to value.Length
      invariant forall k :: 0 <= k < index ==> value[k] == XorByte(old(value[k]), u[k])
      invariant forall k :: index <= k < value.Length ==> value[k] == old(value[k])
    {
      value[index] := XorByte(value[index], u[index]);
    }
  }

  lemma {:induction false} BlocksPrefix(prf: (Bytes, Bytes) -> Bytes, password: Bytes, salt: Bytes, c: nat, n: nat, m: nat)
    requires IsPrf(prf) && c >= 1 && n <= m
    ensures Blocks(prf, password, salt, c, n) <= Blocks(prf, password, salt, c, m)
    decreases m
  {
    if n < m { BlocksPrefix(prf, password, salt, c, n, m - 1); }
  }

  /** A shorter derived key is the beginning of every longer one. */
  lemma ShorterIsPrefix(prf: (Bytes, Bytes) -> Bytes, password: Bytes, salt: Bytes, c: nat, short: nat, long: nat)
    requires IsPrf(prf) && c >= 1 && short <= long
    ensures DerivedKey(prf, password, salt, c, short) == DerivedKey(prf, password, salt, c, long)[..short]
  {
    BlocksPrefix(prf, password, salt, c, BlockCount(short), BlockCount(long));
  }

  function BigEndian(b: Bytes): nat
    requires |b| == 4
  {
    b[0] as nat * 0x100_0000 + b[1] as nat * 0x1_0000 + b[2] as nat * 0x100 + b[3] as nat
  }

  lemma SplitOctet(n: nat, unit: nat)
    requires unit in {1, 0x100, 0x1_0000, 0x100_0000}
    ensures n / unit == 0x100 * (n / (0x100 * unit)) + n / unit % 0x100
  {
  }

  lemma CounterValue(block: nat)
    ensures BigEndian(Counter(block)) == block % TWO_32
  {
    SplitOctet(block, 1);
    SplitOctet(block, 0x100);
    SplitOctet(block, 0x1_0000);
    SplitOctet(block, 0x100_0000);
    assert block == TWO_32 * (block / TWO_32) + BigEndian(Counter(block));
  }

  lemma BlocksWithin(size: nat)
    ensures size <= (TWO_32 - 1) * HASH_LEN <==> BlockCount(size) < TWO_32
  {
  }

  /** Block i is derived from its own number, as the standard's INT(i) has it. */
  ghost predicate OwnNumber(i: nat) { BigEndian(Counter(i)) == i }

  lemma OwnNumberBelow(i: nat)
    ensures OwnNumber(i) <==> i < TWO_32
  {
    CounterValue(i);
  }

  /** Every block is derived from its own number exactly when the size is within the standard's bound of
      (2^32 - 1) * hLen. */
  lemma WithinBoundExactly(size: nat)
    ensures size <= (TWO_32 - 1) * HASH_LEN <==>
      forall i :: 1 <= i <= BlockCount(size) ==> OwnNumber(i)
  {
    BlocksWithin(size);
    forall i: nat ensures OwnNumber(i) <==> i < TWO_32 { OwnNumberBelow(i); }
    if BlockCount(size) >= TWO_32 { assert !OwnNumber(TWO_32); }
  }

  // ----- Bit by bit -----------------------------------------------------------------------------

  function Mask(i: nat): bv8
    requires i < 8
  {
    [1, 2, 4, 8, 16, 32, 64, 128][i]
  }

  predicate WordBit(x: bv8, i: nat)
    requires i < 8
  {
    x & Mask(i) != 0
  }

  predicate Bit(b: byte, i: nat)
    requires i < 8
  {
    WordBit(b as bv8, i)
  }

  lemma XorWord(a: byte, b: byte)
    ensures XorByte(a, b) as bv8 == (a as bv8) ^ (b as bv8)
  {
  }

  lemma XorMasked(x: bv8, y: bv8, m: bv8)
    requires m == 1 || m == 2 || m == 4 || m == 8 || m == 16 || m == 32 || m == 64 || m == 128
    ensures (x ^ y) & m != 0 <==> (x & m != 0) != (y & m != 0)
  {
  }

  lemma XorWordBit(x: bv8, y: bv8, i: nat)
    requires i < 8
    ensures WordBit(x ^ y, i) <==> WordBit(x, i) != WordBit(y, i)
  {
    XorMasked(x, y, Mask(i));
  }

  lemma XorBitOf(a: byte, b: byte, i: nat, x: bv8, y: bv8, z: bv8)
    requires i < 8 && x == a as bv8 && y == b as bv8 && z == x ^ y && z == XorByte(a, b) as bv8
    ensures Bit(XorByte(a, b), i) <==> Bit(a, i) != Bit(b, i)
  {
    XorWordBit(x, y, i);
  }

  lemma XorBit(a: byte, b: byte, i: nat)
    requires i < 8
    ensures Bit(XorByte(a, b), i) <==> Bit(a, i) != Bit(b, i)
  {
    XorWord(a, b);
    XorBitOf(a, b, i, a as bv8, b as bv8, XorByte(a, b) as bv8);
  }

  /** The rounds of one block: the first is of the salt and the block's number, every other of the one before. */
  ghost predicate Chain(prf: (Bytes, Bytes) -> Bytes, password: Bytes, salt: Bytes, number: Bytes, us: seq<Bytes>) {
    && us != [] && us[0] == prf(password, salt + number)
    && forall j :: 0 < j < |us| ==> us[j] == prf(password, us[j - 1])
  }

  lemma {:induction false} ChainIsU(prf: (Bytes, Bytes) -> Bytes, password: Bytes, salt: Bytes, i: nat, us: seq<Bytes>, j: nat)
    requires Chain(prf, password, salt, Counter(i), us) && j < |us|
    ensures us[j] == U(prf, password, salt, i, j + 1)
  {
    if j > 0 { ChainIsU(prf, password, salt, i, us, j - 1); }
  }

  /** A test of bytes that tells an exclusive or by its parts, as that of one bit does. */
  ghost predicate Parity(test: byte -> bool) {
    forall a, b :: test(XorByte(a, b)) <==> test(a) != test(b)
  }

  /** The rounds among the first c of which byte k passes the test. */
  function Ones(us: seq<Bytes>, c: nat, k: nat, test: byte -> bool): set<nat>
    requires c <= |us|
  {
    set j | 0 <= j < c && k < |us[j]| && test(us[j][k])
  }

  lemma OnesStep(us: seq<Bytes>, c: nat, k: nat, test: byte -> bool)
    requires c < |us| && k < |us[c]|
    ensures |Ones(us, c + 1, k, test)| == |Ones(us, c, k, test)| + if test(us[c][k]) then 1 else 0
  {
    assert c !in Ones(us, c, k, test);
    assert Ones(us, c + 1, k, test) == Ones(us, c, k, test) + if test(us[c][k]) then {c} else {};
  }

  lemma {:induction false} BlockParity(prf: (Bytes, Bytes) -> Bytes, password: Bytes, salt: Bytes, n: nat, us: seq<Bytes>,
                                       c: nat, k: nat, test: byte -> bool)
    requires IsPrf(prf) && Chain(prf, password, salt, Counter(n), us) && 1 <= c <= |us| && k < HASH_LEN && Parity(test)
    ensures test(F(prf, password, salt, c, n)[k]) <==> |Ones(us, c, k, test)| % 2 == 1
  {
    RoundByte(prf, password, salt, n, us, c, k);
    if c == 1 {
      FirstParity(us, k, test);
    } else {
      BlockParity(prf, password, salt, n, us, c - 1, k, test);
      NextParity(us, c - 1, k, test, F(prf, password, salt, c - 1, n)[k]);
    }
  }

  lemma FirstParity(us: seq<Bytes>, k: nat, test: byte -> bool)
    requires us != [] && k < |us[0]|
    ensures test(us[0][k]) <==> |Ones(us, 1, k, test)| % 2 == 1
  {
    OnesStep(us, 0, k, test);
    assert Ones(us, 0, k, test) == {};
  }

  lemma NextParity(us: seq<Bytes>, c: nat, k: nat, test: byte -> bool, so: byte)
    requires c < |us| && k < |us[c]| && Parity(test) && (test(so) <==> |Ones(us, c, k, test)| % 2 == 1)
    ensures test(XorByte(so, us[c][k])) <==> |Ones(us, c + 1, k, test)| % 2 == 1
  {
    OnesStep(us, c, k, test);
    assert test(XorByte(so, us[c][k])) <==> test(so) != test(us[c][k]);
  }

  lemma RoundByte(prf: (Bytes, Bytes) -> Bytes, password: Bytes, salt: Bytes, n: nat, us: seq<Bytes>, c: nat, k: nat)
    requires IsPrf(prf) && Chain(prf, password, salt, Counter(n), us) && 1 <= c <= |us| && k < HASH_LEN
    ensures |us[c - 1]| == HASH_LEN
    ensures F(prf, password, salt, c, n)[k] ==
      if c == 1 then us[0][k] else XorByte(F(prf, password, salt, c - 1, n)[k], us[c - 1][k])
  {
    ChainIsU(prf, password, salt, n, us, c - 1);
  }

  lemma {:induction false} ByteOfBlock(prf: (Bytes, Bytes) -> Bytes, password: Bytes, salt: Bytes, c: nat, n: nat, p: nat)
    requires IsPrf(prf) && c >= 1 && p < n * HASH_LEN
    ensures Blocks(prf, password, salt, c, n)[p] == F(prf, password, salt, c, p / 32 + 1)[p % 32]
  {
    if p < (n - 1) * HASH_LEN { ByteOfBlock(prf, password, salt, c, n - 1, p); } else { InLastBlock(n, p); }
  }

  lemma InLastBlock(n: nat, p: nat)
    requires (n - 1) * HASH_LEN <= p < n * HASH_LEN
    ensures p / 32 == n - 1 && p % 32 == p - (n - 1) * HASH_LEN
  {
  }

  /** The derived key, bit by bit: bit i of byte p is set exactly when an odd number of the rounds of
      block p / 32 + 1 have that bit of byte p % 32 set. */
  lemma DerivedBitExactly(prf: (Bytes, Bytes) -> Bytes, password: Bytes, salt: Bytes, c: nat, size: nat,
                          number: Bytes, us: seq<Bytes>, p: nat, i: nat)
    requires IsPrf(prf) && c >= 1 && p < size && i < 8
    requires |number| == 4 && BigEndian(number) == (p / 32 + 1) % 0x1_0000_0000
    requires Chain(prf, password, salt, number, us) && |us| == c
    ensures Bit(DerivedKey(prf, password, salt, c, size)[p], i) <==> |Ones(us, c, p % 32, b => Bit(b, i))| % 2 == 1
  {
    CounterValue(p / 32 + 1);
    SameNumber(number, Counter(p / 32 + 1));
    BlocksNeeded(size, p / 32);
    ByteOfBlock(prf, password, salt, c, BlockCount(size), p);
    var test := b => Bit(b, i);
    BitParity(test, i);
    BlockParity(prf, password, salt, p / 32 + 1, us, c, p % 32, test);
    assert Ones(us, c, p % 32, test) == Ones(us, c, p % 32, b => Bit(b, i));
  }

  lemma BitParity(test: byte -> bool, i: nat)
    requires i < 8 && forall b :: test(b) == Bit(b, i)
    ensures Parity(test)
  {
    forall a, b ensures test(XorByte(a, b)) <==> test(a) != test(b) { XorBit(a, b, i); }
  }

  lemma SameNumber(a: Bytes, b: Bytes)
    requires |a| == |b| == 4 && BigEndian(a) == BigEndian(b)
    ensures a == b
  {
    assert a[0] == b[0];
    assert a[1] == b[1];
    assert a[2] == b[2];
  }
}
