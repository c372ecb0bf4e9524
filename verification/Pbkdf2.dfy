/** The password hash's key derivation, `pbkdf2SHA256`, against section 5.2 of RFC 8018. The keyed
    hash (HMAC with SHA-256) is a parameter; all that is used of it is the length of its result. */
module Pbkdf2 {

  type byte = b: int | 0 <= b < 256
  type Bytes = seq<byte>
  type Prf = (Bytes, Bytes) -> Bytes

  const HASH_LEN := 32

  /** The standard allows no more blocks than a four-octet index can tell apart. */
  const MAX_BLOCKS := 0xFFFF_FFFF

  ghost predicate IsPrf(prf: Prf)
  {
    forall key, data :: |prf(key, data)| == HASH_LEN
  }

  // ---- Section 5.2 ----

  function XorByte(a: byte, b: byte): byte
  {
    ((a as bv8) ^ (b as bv8)) as int
  }

  function Xor(a: Bytes, b: Bytes): (r: Bytes)
    requires |a| == |b|
    ensures |r| == |a| && forall k :: 0 <= k < |r| ==> r[k] == XorByte(a[k], b[k])
  {
    seq(|a|, k requires 0 <= k < |a| => XorByte(a[k], b[k]))
  }

  /** A number as octets, most significant first. */
  function Octets(n: nat, width: nat): (s: Bytes)
    ensures |s| == width
  {
    if width == 0 then [] else Octets(n / 256, width - 1) + [n % 256]
  }

  /** U_j for block `i`. */
  function U(prf: Prf, password: Bytes, salt: Bytes, i: nat, j: nat): Bytes
    requires j >= 1
    decreases j
  {
    if j == 1 then prf(password, salt + Octets(i, 4)) else prf(password, U(prf, password, salt, i, j - 1))
  }

  lemma ULength(prf: Prf, password: Bytes, salt: Bytes, i: nat, j: nat)
    requires IsPrf(prf) && j >= 1
    ensures |U(prf, password, salt, i, j)| == HASH_LEN
  {
  }

  /** F: the exclusive or of U_1 to U_c. */
  ghost function F(prf: Prf, password: Bytes, salt: Bytes, c: nat, i: nat): (t: Bytes)
    requires IsPrf(prf) && c >= 1
    ensures |t| == HASH_LEN
    decreases c
  {
    ULength(prf, password, salt, i, c);
    if c == 1 then U(prf, password, salt, i, 1)
    else Xor(F(prf, password, salt, c - 1, i), U(prf, password, salt, i, c))
  }

  /** T_1 to T_l, end to end. */
  ghost function Blocks(prf: Prf, password: Bytes, salt: Bytes, c: nat, l: nat): (out: Bytes)
    requires IsPrf(prf) && c >= 1
    ensures |out| == l * HASH_LEN
    decreases l
  {
    if l == 0 then [] else Blocks(prf, password, salt, c, l - 1) + F(prf, password, salt, c, l)
  }

  function BlockCount(keyLen: nat): nat
  {
    (keyLen + HASH_LEN - 1) / HASH_LEN
  }

  lemma EnoughBlocks(keyLen: nat)
    ensures keyLen <= BlockCount(keyLen) * HASH_LEN < keyLen + HASH_LEN
  {
  }

  /** The derived key: the first `keyLen` octets. */
  ghost function DerivedKey(prf: Prf, password: Bytes, salt: Bytes, c: nat, keyLen: nat): (dk: Bytes)
    requires IsPrf(prf) && c >= 1
    ensures |dk| == keyLen
  {
    EnoughBlocks(keyLen);
    Blocks(prf, password, salt, c, BlockCount(keyLen))[..keyLen]
  }

  // ---- The code ----

  /** The octet the code takes with `byte(block >> bits)`, `unit` being two to the power `bits`. */
  function ByteAt(block: nat, unit: nat): byte
    requires unit > 0
  {
    block / unit % 256
  }

  lemma BlockOctets(block: nat)
    ensures Octets(block, 4) == [ByteAt(block, 0x100_0000), ByteAt(block, 0x1_0000), ByteAt(block, 0x100), ByteAt(block, 1)]
  {
    assert block / 256 / 256 == block / 0x1_0000;
    assert block / 0x1_0000 / 256 == block / 0x100_0000;
    var s3 := Octets(block / 256, 3);
    var s2 := Octets(block / 256 / 256, 2);
    var s1 := Octets(block / 256 / 256 / 256, 1);
    assert Octets(block / 256 / 256 / 256 / 256, 0) == [];
    assert s1 == [ByteAt(block, 0x100_0000)];
    assert s2 == s1 + [ByteAt(block, 0x1_0000)];
    assert s3 == s2 + [ByteAt(block, 0x100)];
  }

  /** The loop runs the first hash in any case. */
  function AtLeastOne(iterations: nat): nat
  {
    if iterations == 0 then 1 else iterations
  }

  /** `pbkdf2SHA256`. */
  method Pbkdf2Sha256(prf: Prf, password: Bytes, salt: Bytes, iterations: nat, keyLen: nat) returns (key: Bytes)
    requires IsPrf(prf)
    ensures key == DerivedKey(prf, password, salt, AtLeastOne(iterations), keyLen)
  {
    var blocks := BlockCount(keyLen);
    var out: Bytes := [];
    for block := 1 to blocks + 1
      invariant out == Blocks(prf, password, salt, AtLeastOne(iterations), block - 1)
    {
      var t := DeriveBlock(prf, password, salt, iterations, block);
      out := out + t;
    }
    EnoughBlocks(keyLen);
    return out[..keyLen];
  }

  method FirstHash(prf: Prf, password: Bytes, salt: Bytes, block: nat) returns (u: Bytes)
    requires IsPrf(prf)
    ensures u == U(prf, password, salt, block, 1) && |u| == HASH_LEN
  {
    BlockOctets(block);
    u := prf(password, salt + [ByteAt(block, 0x100_0000), ByteAt(block, 0x1_0000), ByteAt(block, 0x100), ByteAt(block, 1)]);
  }

  method NextHash(prf: Prf, password: Bytes, salt: Bytes, block: nat, ghost i: nat, u: Bytes) returns (next: Bytes)
    requires IsPrf(prf) && i >= 1 && u == U(prf, password, salt, block, i)
    ensures next == U(prf, password, salt, block, i + 1) && |next| == HASH_LEN
  {
    next := prf(password, u);
  }

  lemma FoldOne(prf: Prf, password: Bytes, salt: Bytes, i: nat, block: nat)
    requires IsPrf(prf) && i >= 1
    ensures |U(prf, password, salt, block, i + 1)| == HASH_LEN
    ensures F(prf, password, salt, i + 1, block) == Xor(F(prf, password, salt, i, block), U(prf, password, salt, block, i + 1))
  {
    ULength(prf, password, salt, block, i + 1);
  }

  /** One block: the chain of hashes, folded into `t` in place. */
  method DeriveBlock(prf: Prf, password: Bytes, salt: Bytes, iterations: nat, block: nat) returns (out: Bytes)
    requires IsPrf(prf)
    ensures out == F(prf, password, salt, AtLeastOne(iterations), block)
  {
    var u := FirstHash(prf, password, salt, block);
    var t := new byte[|u|](k requires 0 <= k < |u| => u[k]);
    assert t[..] == u;
    ghost var c := AtLeastOne(iterations);
    var i := 1;
    while i < iterations
      invariant 1 <= i <= c
      invariant u == U(prf, password, salt, block, i) && |u| == HASH_LEN
      invariant t.Length == HASH_LEN && t[..] == F(prf, password, salt, i, block)
    {
      u := NextHash(prf, password, salt, block, i, u);
      XorInPlace(t, u);
      FoldOne(prf, password, salt, i, block);
      i := i + 1;
    }
    assert i == c;
    return t[..];
  }

  method XorInPlace(t: array<byte>, u: Bytes)
    requires t.Length == |u|
    modifies t
    ensures t[..] == Xor(old(t[..]), u)
  {
    for j := 0 to t.Length
      invariant forall k :: 0 <= k < j ==> t[k] == XorByte(old(t[k]), u[k])
      invariant forall k :: j <= k < t.Length ==> t[k] == old(t[k])
    {
      t[j] := XorByte(t[j], u[j]);
    }
  }

  /** The first block of a key, written out for one and for two iterations. */
  lemma FirstBlockWrittenOut(prf: Prf, password: Bytes, salt: Bytes)
    requires IsPrf(prf)
    ensures var first := prf(password, salt + [0, 0, 0, 1]);
            && DerivedKey(prf, password, salt, 1, HASH_LEN) == first
            && DerivedKey(prf, password, salt, 2, HASH_LEN) == Xor(first, prf(password, first))
  {
    BlockOctets(1);
    assert Octets(1, 4) == [0, 0, 0, 1];
    var first := prf(password, salt + [0, 0, 0, 1]);
    assert U(prf, password, salt, 1, 1) == first && U(prf, password, salt, 1, 2) == prf(password, first);
    assert BlockCount(HASH_LEN) == 1;
    assert Blocks(prf, password, salt, 1, 1) == [] + F(prf, password, salt, 1, 1);
    assert Blocks(prf, password, salt, 2, 1) == [] + F(prf, password, salt, 2, 1);
    assert F(prf, password, salt, 2, 1) == Xor(F(prf, password, salt, 1, 1), U(prf, password, salt, 1, 2));
  }

  // ---- Lengths ----

  lemma {:induction false} MoreBlocks(prf: Prf, password: Bytes, salt: Bytes, c: nat, l: nat, m: nat)
    requires IsPrf(prf) && c >= 1 && l <= m
    ensures Blocks(prf, password, salt, c, l) <= Blocks(prf, password, salt, c, m)
    decreases m
  {
    if l < m {
      MoreBlocks(prf, password, salt, c, l, m - 1);
    }
  }

  /** A shorter key is a prefix of a longer one. */
  lemma ShorterKeyIsPrefix(prf: Prf, password: Bytes, salt: Bytes, c: nat, short: nat, long: nat)
    requires IsPrf(prf) && c >= 1 && short <= long
    ensures DerivedKey(prf, password, salt, c, short) == DerivedKey(prf, password, salt, c, long)[..short]
  {
    MoreBlocks(prf, password, salt, c, BlockCount(short), BlockCount(long));
    EnoughBlocks(short);
    EnoughBlocks(long);
  }

  // ---- Block indices ----

  function Value(s: Bytes): nat
  {
    if s == [] then 0 else Value(s[..|s| - 1]) * 256 + s[|s| - 1]
  }

  function Pow256(w: nat): nat
  {
    if w == 0 then 1 else 256 * Pow256(w - 1)
  }

  lemma {:induction false} OctetsValue(n: nat, width: nat)
    requires n < Pow256(width)
    ensures Value(Octets(n, width)) == n
  {
    if width > 0 {
      OctetsValue(n / 256, width - 1);
      LastOctet(Octets(n / 256, width - 1), n % 256);
    }
  }

  lemma LastOctet(front: Bytes, last: byte)
    ensures Value(front + [last]) == Value(front) * 256 + last
  {
    var s := front + [last];
    assert s[..|s| - 1] == front;
  }

  /** Within the standard's bound no two blocks of a key hash the same index. */
  lemma BlockIndicesDiffer(i: nat, j: nat)
    requires i <= MAX_BLOCKS && j <= MAX_BLOCKS && i != j
    ensures Octets(i, 4) != Octets(j, 4)
  {
    assert Pow256(4) == 0x1_0000_0000 by { assert Pow256(2) == 0x1_0000; }
    OctetsValue(i, 4);
    OctetsValue(j, 4);
  }
}
