/**
 * SHA-1.  The first half is the standard's own description (sections 4.1.1, 4.2.1, 5.1.1, 5.2.1,
 * 5.3.1 and 6.1.2 of FIPS 180-4); the second half is the bridge's hand-written routine with its
 * buffer and its two-way padding split, proved equal to it.
 */
module Sha1 {
  type octet = bv8
  type word = bv32

  datatype Hash = Hash(a: word, b: word, c: word, d: word, e: word)

  // ---------------------------------------------------------------------------------------------
  // FIPS 180-4

  // The word operations of sections 3.2 and 4.1.1.

  function Plus(x: word, y: word): word { x + y }

  function Rotl1(x: word): word { (x << 1) | (x >> 31) }

  function Rotl5(x: word): word { (x << 5) | (x >> 27) }

  function Rotl30(x: word): word { (x << 30) | (x >> 2) }

  function Ch(x: word, y: word, z: word): word { (x & y) ^ (!x & z) }

  function Parity(x: word, y: word, z: word): word { x ^ y ^ z }

  function Maj(x: word, y: word, z: word): word { (x & y) ^ (x & z) ^ (y & z) }

  /** The functions f_t of section 4.1.1. */
  function F(t: nat, x: word, y: word, z: word): word {
    if t < 20 then Ch(x, y, z)
    else if t < 40 then Parity(x, y, z)
    else if t < 60 then Maj(x, y, z)
    else Parity(x, y, z)
  }

  /** The constants K_t of section 4.2.1. */
  function K(t: nat): word {
    if t < 20 then 0x5a827999 else if t < 40 then 0x6ed9eba1 else if t < 60 then 0x8f1bbcdc else 0xca62c1d6
  }

  /** The rotations of section 3.2. */
  lemma Rotations(x: word)
    ensures Rotl1(x) == x.RotateLeft(1) && Rotl5(x) == x.RotateLeft(5) && Rotl30(x) == x.RotateLeft(30)
  {
  }

  /** In the places that m picks out, Ch takes y where x is set and z where it is not. */
  lemma ChChooses(x: word, y: word, z: word, m: word)
    ensures x & m == m ==> Ch(x, y, z) & m == y & m
    ensures x & m == 0 ==> Ch(x, y, z) & m == z & m
  {
  }

  lemma MajCycle(x: word, y: word, z: word)
    ensures Maj(x, y, z) == Maj(y, z, x)
  {
  }

  lemma MajFirstTwo(x: word, y: word, z: word, m: word)
    ensures x & m == y & m ==> Maj(x, y, z) & m == x & m
  {
  }

  /** Maj takes what two of the three agree on. */
  lemma MajAgrees(x: word, y: word, z: word, m: word)
    ensures x & m == y & m ==> Maj(x, y, z) & m == x & m
    ensures y & m == z & m ==> Maj(x, y, z) & m == y & m
    ensures z & m == x & m ==> Maj(x, y, z) & m == z & m
  {
    hide Maj;
    MajCycle(x, y, z);
    MajCycle(y, z, x);
    MajFirstTwo(x, y, z, m);
    MajFirstTwo(y, z, x, m);
    MajFirstTwo(z, x, y, m);
  }

  /** Parity is z where x and y agree, and its complement where they differ. */
  lemma ParityCounts(x: word, y: word, z: word, m: word)
    ensures x & m == y & m ==> Parity(x, y, z) & m == z & m
    ensures x & m == !y & m ==> Parity(x, y, z) & m == !z & m
  {
  }

  /** K_t holds the first 30 binary places of the square root of 2, 3, 5 or 10, and its whole part. */
  lemma RootConstants(t: nat)
    requires t < 80
    ensures var n := if t < 20 then 2 else if t < 40 then 3 else if t < 60 then 5 else 10;
            var k := K(t) as int;
            k * k <= n * 0x1000_0000_0000_0000 < (k + 1) * (k + 1)
  {
  }

  const H0 := Hash(0x67452301, 0xefcdab89, 0x98badcfe, 0x10325476, 0xc3d2e1f0)

  type block = b: seq<octet> | |b| == 64 witness seq(64, _ => 0)

  function WordAt(b: seq<octet>, t: nat): word
    requires 4 * t + 4 <= |b|
  {
    ((b[4 * t] as word) << 24) | ((b[4 * t + 1] as word) << 16) | ((b[4 * t + 2] as word) << 8) | (b[4 * t + 3] as word)
  }

  function Mix(x3: word, x8: word, x14: word, x16: word): word { x3 ^ x8 ^ x14 ^ x16 }

  /** The message schedule W_t of step 1 of section 6.1.2. */
  function W(b: block, t: nat): word {
    if t < 16 then WordAt(b, t)
    else Rotl1(Mix(W(b, t - 3), W(b, t - 8), W(b, t - 14), W(b, t - 16)))
  }

  /** Step 3 of section 6.1.2 for one t, given f_t(b, c, d) and K_t. */
  function Turn(h: Hash, f: word, k: word, w: word): Hash {
    Hash(Plus(Plus(Plus(Plus(Rotl5(h.a), f), h.e), k), w), h.a, Rotl30(h.b), h.c, h.d)
  }

  function Round(h: Hash, t: nat, w: word): Hash {
    Turn(h, F(t, h.b, h.c, h.d), K(t), w)
  }

  function Rounds(h: Hash, b: block, t: nat): Hash {
    if t == 0 then h else Round(Rounds(h, b, t - 1), t - 1, W(b, t - 1))
  }

  function Add(h: Hash, g: Hash): Hash {
    Hash(Plus(h.a, g.a), Plus(h.b, g.b), Plus(h.c, g.c), Plus(h.d, g.d), Plus(h.e, g.e))
  }

  function Compress(h: Hash, b: block): Hash {
    Add(h, Rounds(h, b, 80))
  }

  function Fold(h: Hash, blocks: seq<block>): Hash {
    if blocks == [] then h else Compress(Fold(h, blocks[..|blocks| - 1]), blocks[|blocks| - 1])
  }

  /** The n-octet big-endian representation of x. */
  function BigEndian(x: nat, n: nat): (s: seq<octet>)
    ensures |s| == n
  {
    if n == 0 then [] else BigEndian(x / 256, n - 1) + [(x % 256) as octet]
  }

  /** The number of zero octets of the padding: the least k with len + 1 + k + 8 = 0 mod 64. */
  function ZeroCount(len: nat): (k: nat)
    ensures (len + 1 + k + 8) % 64 == 0 && k < 64
  {
    (55 - len) % 64
  }

  function Zeros(n: nat): seq<octet> { seq(n, _ => 0) }

  /** The padded message of section 5.1.1. */
  function Pad(m: seq<octet>): (p: seq<octet>)
    ensures |p| % 64 == 0
  {
    m + [0x80] + Zeros(ZeroCount(|m|)) + BigEndian(8 * |m|, 8)
  }

  /** The consecutive 64-octet blocks of p. */
  function Blocks(p: seq<octet>): (bs: seq<block>)
    requires |p| % 64 == 0
    ensures |bs| == |p| / 64
  {
    seq(|p| / 64, i requires 0 <= i < |p| / 64 => p[64 * i..64 * i + 64])
  }

  function WordOctets(w: word): (s: seq<octet>)
    ensures |s| == 4
  {
    [((w >> 24) & 0xff) as octet, ((w >> 16) & 0xff) as octet, ((w >> 8) & 0xff) as octet, (w & 0xff) as octet]
  }

  function Digest(h: Hash): (s: seq<octet>)
    ensures |s| == 20
  {
    WordOctets(h.a) + WordOctets(h.b) + WordOctets(h.c) + WordOctets(h.d) + WordOctets(h.e)
  }

  /** The octets of the initial words. */
  lemma InitialDigits()
    ensures WordOctets(H0.a) == [0x67, 0x45, 0x23, 0x01] && WordOctets(H0.b) == [0xef, 0xcd, 0xab, 0x89]
    ensures WordOctets(H0.c) == [0x98, 0xba, 0xdc, 0xfe] && WordOctets(H0.d) == [0x10, 0x32, 0x54, 0x76]
    ensures WordOctets(H0.e) == [0xc3, 0xd2, 0xe1, 0xf0]
  {
  }

  /** Words are written with their high octet first. */
  lemma OctetsBack(w: word, b: seq<octet>)
    requires |b| == 4
    ensures WordAt(WordOctets(w), 0) == w && WordOctets(WordAt(b, 0)) == b
  {
  }

  function Sha(m: seq<octet>): (s: seq<octet>)
    ensures |s| == 20
  {
    Digest(Fold(H0, Blocks(Pad(m))))
  }

  // ---------------------------------------------------------------------------------------------
  // The routine of the bridge

  const WORD_RANGE: nat := 0x1_0000_0000

  /** The byte offset of block i: `i * 64` in a 32-bit unsigned variable. */
  function Offset(i: nat): (o: nat)
    ensures o <= 64 * i
  {
    (64 * i) % WORD_RANGE
  }

  /** The whole blocks of the input as the routine addresses them. */
  function AddressedBlocks(m: seq<octet>): (bs: seq<block>)
    ensures |bs| == |m| / 64
  {
    seq(|m| / 64, i requires 0 <= i < |m| / 64 => m[Offset(i)..Offset(i) + 64])
  }

  /** `x >> (8 * j)`. */
  function ShiftOctets(x: nat, j: nat): nat {
    if j == 0 then x else ShiftOctets(x / 256, j - 1)
  }

  function OctetOf(x: nat): octet { (x % 256) as octet }

  lemma TailLength(n: nat)
    ensures n % 64 + 1 + ZeroCount(n) + 8 == if n % 64 + 1 > 56 then 128 else 64
  {
    var q, r := n / 64, n % 64;
    assert 55 - n == 64 * (-q) + (55 - r);
  }

  /** What follows the whole blocks of m in the padded message: one block or two. */
  function Tail(m: seq<octet>): (t: seq<octet>)
    ensures |t| == (if |m| % 64 + 1 > 56 then 128 else 64) && |t| % 64 == 0
  {
    TailLength(|m|);
    m[|m| - |m| % 64..] + [0x80] + Zeros(ZeroCount(|m|)) + BigEndian(8 * |m|, 8)
  }

  /** Ch and Maj as the routine writes them. */
  function ChOr(b: word, c: word, d: word): word { (b & c) | (!b & d) }

  function MajOr(b: word, c: word, d: word): word { (b & c) | (b & d) | (c & d) }

  lemma MuxBits(x: word, y: word, z: word)
    ensures (x & y) | (!x & z) == (x & y) ^ (!x & z)
    ensures (x & y) | (x & z) | (y & z) == (x & y) ^ (x & z) ^ (y & z)
  {
  }

  lemma RoutineFunctions(b: word, c: word, d: word)
    ensures ChOr(b, c, d) == Ch(b, c, d) && MajOr(b, c, d) == Maj(b, c, d)
  {
    MuxBits(b, c, d);
  }

  lemma {:induction false} BigEndianOctet(x: nat, n: nat, j: nat)
    requires j < n
    ensures BigEndian(x, n)[n - 1 - j] == OctetOf(ShiftOctets(x, j))
  {
    if j == 0 {
    } else {
      BigEndianOctet(x / 256, n - 1, j - 1);
    }
  }

  lemma {:induction false} FoldConcat(h: Hash, a: seq<block>, b: seq<block>)
    ensures Fold(h, a + b) == Fold(Fold(h, a), b)
  {
    if b == [] {
      assert a + b == a;
    } else {
      assert (a + b)[..|a + b| - 1] == a + b[..|b| - 1];
      FoldConcat(h, a, b[..|b| - 1]);
    }
  }

  lemma SliceLeft(p: seq<octet>, q: seq<octet>, at: nat, n: nat)
    requires at + n <= |p|
    ensures (p + q)[at..at + n] == p[at..at + n]
  {
  }

  lemma SliceRight(p: seq<octet>, q: seq<octet>, at: nat, n: nat)
    requires at + n <= |q|
    ensures (p + q)[|p| + at..|p| + at + n] == q[at..at + n]
  {
  }

  lemma BlocksConcat(p: seq<octet>, q: seq<octet>)
    requires |p| % 64 == 0 && |q| % 64 == 0
    ensures Blocks(p + q) == Blocks(p) + Blocks(q)
  {
    var n := |p| / 64;
    assert |p| == 64 * n && |p + q| / 64 == n + |q| / 64;
    forall i | 0 <= i < |p + q| / 64 ensures Blocks(p + q)[i] == (Blocks(p) + Blocks(q))[i] {
      if i < n { SliceLeft(p, q, 64 * i, 64); } else { SliceRight(p, q, 64 * (i - n), 64); }
    }
  }

  /** The 32-bit offsets are the offsets of the blocks exactly while there are at most 2^26 of
      them, that is, for inputs shorter than 4 GiB and 64 bytes. */
  lemma OffsetsExact(n: nat)
    ensures (forall i: nat | i < n :: Offset(i) == 64 * i) <==> n <= 0x400_0000
  {
    if n > 0x400_0000 { assert Offset(0x400_0000) == 0; }
  }

  /** The whole blocks of the message, in order. */
  function WholeBlocks(m: seq<octet>): seq<block> {
    Blocks(m[..|m| - |m| % 64])
  }

  lemma AddressedInOrder(m: seq<octet>)
    requires |m| < WORD_RANGE + 64
    ensures AddressedBlocks(m) == WholeBlocks(m)
  {
    var whole := m[..|m| - |m| % 64];
    OffsetsExact(|m| / 64);
    forall i: nat | i < |m| / 64 ensures AddressedBlocks(m)[i] == Blocks(whole)[i] {
      assert Offset(i) == 64 * i && m[64 * i..64 * i + 64] == whole[64 * i..64 * i + 64];
    }
  }

  lemma PadSplit(m: seq<octet>)
    ensures Pad(m) == m[..|m| - |m| % 64] + Tail(m)
  {
    hide BigEndian, Zeros, ZeroCount;
    var whole, rest := m[..|m| - |m| % 64], m[|m| - |m| % 64..];
    assert m == whole + rest;
    var end := [0x80] + Zeros(ZeroCount(|m|)) + BigEndian(8 * |m|, 8);
    assert Pad(m) == m + end && Tail(m) == rest + end;
  }

  lemma PaddedBlocks(m: seq<octet>)
    ensures Blocks(Pad(m)) == WholeBlocks(m) + Blocks(Tail(m))
  {
    hide Pad, Tail, Blocks;
    PadSplit(m);
    BlocksConcat(m[..|m| - |m| % 64], Tail(m));
  }

  /** Within that bound the fold over the addressed blocks and the tail is the fold over the
      padded message of the standard. */
  lemma RoutineMeetsStandard(m: seq<octet>)
    requires |m| < WORD_RANGE + 64
    ensures Fold(Fold(H0, AddressedBlocks(m)), Blocks(Tail(m))) == Fold(H0, Blocks(Pad(m)))
  {
    AddressedInOrder(m);
    PaddedBlocks(m);
    FoldConcat(H0, WholeBlocks(m), Blocks(Tail(m)));
  }

  /** Beyond it the routine compresses other blocks than the message has, as soon as the block at
      4 GiB differs from the first. */
  lemma LongInputsDiffer(m: seq<octet>)
    requires |m| >= WORD_RANGE + 64 && m[..64] != m[WORD_RANGE..WORD_RANGE + 64]
    ensures AddressedBlocks(m) != WholeBlocks(m)
  {
    var k := 0x400_0000;
    assert AddressedBlocks(m)[k] == m[..64];
    assert WholeBlocks(m)[k] == m[WORD_RANGE..WORD_RANGE + 64];
  }

  /** The bound is exact: the routine compresses the blocks of every message of length n if and only
      if n is below it. */
  lemma BlocksExactly(n: nat)
    ensures (forall m: seq<octet> | |m| == n :: AddressedBlocks(m) == WholeBlocks(m)) <==> n < WORD_RANGE + 64
  {
    if n < WORD_RANGE + 64 {
      forall m: seq<octet> | |m| == n ensures AddressedBlocks(m) == WholeBlocks(m) { AddressedInOrder(m); }
    } else {
      var m: seq<octet> := seq(n, i => if i < 64 then 1 else 0);
      assert m[..64][0] != m[WORD_RANGE..WORD_RANGE + 64][0];
      LongInputsDiffer(m);
    }
  }

  /** The loop over the whole blocks ends, that is, its 32-bit counter reaches their number after
      some number k of iterations, exactly for inputs shorter than 2^38 octets. */
  lemma BlockLoopEnds(len: nat)
    ensures (exists k: nat :: Counter(k) >= len / 64) <==> len < 0x40_0000_0000
  {
    if len < 0x40_0000_0000 { assert Counter(len / 64) == len / 64; }
  }

  /** The value of the counter after k iterations. */
  function Counter(k: nat): (i: nat)
    ensures i < WORD_RANGE
  {
    k % WORD_RANGE
  }

  function HashOf(h: array<word>): Hash
    requires h.Length == 5
    reads h
  {
    Hash(h[0], h[1], h[2], h[3], h[4])
  }

  /** The choice of f and k inside the round loop, which writes Ch and Maj with `|`. */
  method ChooseFK(j: nat, b: word, c: word, d: word) returns (f: word, k: word)
    requires j < 80
    ensures f == F(j, b, c, d) && k == K(j)
  {
    RoutineFunctions(b, c, d);
    if j < 20 {
      f, k := ChOr(b, c, d), 0x5a827999;
    } else if j < 40 {
      f, k := Parity(b, c, d), 0x6ed9eba1;
    } else if j < 60 {
      f, k := MajOr(b, c, d), 0x8f1bbcdc;
    } else {
      f, k := Parity(b, c, d), 0xca62c1d6;
    }
  }

  /** The rotation of the working variables that ends each iteration. */
  method Shift(g: Hash, f: word, k: word, w: word) returns (g': Hash)
    ensures g' == Turn(g, f, k, w)
  {
    var a, b, c, d, e := g.a, g.b, g.c, g.d, g.e;
    var temp := Plus(Plus(Plus(Plus(Rotl5(a), f), e), k), w);
    e := d;
    d := c;
    c := Rotl30(b);
    b := a;
    a := temp;
    g' := Hash(a, b, c, d, e);
  }

  /** The two schedule loops. */
  method Schedule(b: block) returns (w: array<word>)
    ensures fresh(w) && w.Length == 80 && forall t | 0 <= t < 80 :: w[t] == W(b, t)
  {
    w := new word[80];
    for j := 0 to 16
      invariant forall t | 0 <= t < j :: w[t] == W(b, t)
    {
      w[j] := WordAt(b, j);
    }
    for j := 16 to 80
      invariant forall t | 0 <= t < j :: w[t] == W(b, t)
    {
      w[j] := Rotl1(Mix(w[j - 3], w[j - 8], w[j - 14], w[j - 16]));
    }
  }

  /** The round loop. */
  method RoundLoop(h: Hash, ghost b: block, w: array<word>) returns (g: Hash)
    requires w.Length == 80 && forall t | 0 <= t < 80 :: w[t] == W(b, t)
    ensures g == Rounds(h, b, 80)
  {
    g := h;
    for j := 0 to 80
      invariant g == Rounds(h, b, j)
    {
      var f, k := ChooseFK(j, g.b, g.c, g.d);
      g := Shift(g, f, k, w[j]);
    }
  }

  /** The block loop, of which the routine holds three identical copies. */
  method CompressBlock(h: array<word>, b: block)
    requires h.Length == 5
    modifies h
    ensures HashOf(h) == Compress(old(HashOf(h)), b)
  {
    var w := Schedule(b);
    var g := RoundLoop(HashOf(h), b, w);
    h[0], h[1], h[2], h[3], h[4] :=
      Plus(h[0], g.a), Plus(h[1], g.b), Plus(h[2], g.c), Plus(h[3], g.d), Plus(h[4], g.e);
  }

  /** `sha1`.  The block counter is a 32-bit variable, so an input of 2^38 bytes or more never
      leaves the first loop. */
  method Sha1(data: seq<octet>) returns (hash: seq<octet>)
    requires |data| / 64 < WORD_RANGE
    ensures hash == Digest(Fold(Fold(H0, AddressedBlocks(data)), Blocks(Tail(data))))
    ensures |data| < WORD_RANGE + 64 ==> hash == Sha(data)
  {
    var h := new word[] [0x67452301, 0xefcdab89, 0x98badcfe, 0x10325476, 0xc3d2e1f0];
    var numBlocks := |data| / 64;
    for i := 0 to numBlocks
      invariant HashOf(h) == Fold(H0, AddressedBlocks(data)[..i])
    {
      assert AddressedBlocks(data)[..i + 1][..i] == AddressedBlocks(data)[..i];
      CompressBlock(h, data[Offset(i)..Offset(i) + 64]);
    }
    assert AddressedBlocks(data)[..numBlocks] == AddressedBlocks(data);
    CompressTail(h, data);
    if |data| < WORD_RANGE + 64 { RoutineMeetsStandard(data); }
    hash := Digest(HashOf(h));
  }

  /** The buffered remainder: 0x80, an extra block when fewer than eight octets are left, zeros and
      the bit length. */
  method CompressTail(h: array<word>, data: seq<octet>)
    requires h.Length == 5
    modifies h
    ensures HashOf(h) == Fold(old(HashOf(h)), Blocks(Tail(data)))
  {
    hide Tail, Blocks, Compress, Fold, BigEndian;
    ghost var tail := Tail(data);
    FoldOne(HashOf(h), tail);
    TailParts(data);
    var buf := new octet[64];
    var idx := FillRemainder(buf, data);
    if idx > 56 {
      FillZeros(buf, idx, 64, tail, 0);
      assert buf[..] == tail[..64];
      CompressBlock(h, buf[..]);
      FillZeros(buf, 0, 56, tail, 64);
      FillLength(buf, |data|, tail[64..]);
    } else {
      FillZeros(buf, idx, 56, tail, 0);
      FillLength(buf, |data|, tail);
    }
    CompressBlock(h, buf[..]);
  }

  lemma TailParts(m: seq<octet>)
    ensures var t, idx := Tail(m), |m| % 64 + 1;
            && t[|t| - 8..] == BigEndian(8 * |m|, 8)
            && (forall i | idx <= i < |t| - 8 :: t[i] == 0)
            && (|t| == 128 ==> t[64..][56..] == t[120..])
  {
    hide BigEndian;
    var r, z, e := m[|m| - |m| % 64..] + [0x80], Zeros(ZeroCount(|m|)), BigEndian(8 * |m|, 8);
    assert Tail(m) == r + z + e && |r| == |m| % 64 + 1;
    JoinedParts(r, z, e);
  }

  lemma JoinedParts(r: seq<octet>, z: seq<octet>, e: seq<octet>)
    requires |e| == 8 && forall i | 0 <= i < |z| :: z[i] == 0
    ensures var t := r + z + e;
            t[|t| - 8..] == e && forall i | |r| <= i < |t| - 8 :: t[i] == 0
  {
  }

  /** The octets behind the last whole block, and 0x80. */
  method FillRemainder(buf: array<octet>, data: seq<octet>) returns (idx: nat)
    requires buf.Length == 64
    modifies buf
    ensures idx == |data| % 64 + 1 && buf[..idx] == Tail(data)[..idx]
  {
    var remaining := |data| % 64;
    idx := 0;
    while idx < remaining
      invariant idx <= remaining && buf[..idx] == data[|data| - remaining..][..idx]
    {
      buf[idx] := data[|data| - remaining + idx];
      idx := idx + 1;
    }
    buf[idx] := 0x80;
    idx := idx + 1;
    assert buf[..idx] == data[|data| - remaining..] + [0x80];
  }

  /** `while (idx < end) buf[idx++] = 0`, where the padded tail has zeros. */
  method FillZeros(buf: array<octet>, start: nat, end: nat, ghost tail: seq<octet>, ghost base: nat)
    requires buf.Length == 64 && start <= end <= 64 && base + end <= |tail|
    requires buf[..start] == tail[base..base + start]
    requires forall i | base + start <= i < base + end :: tail[i] == 0
    modifies buf
    ensures buf[..end] == tail[base..base + end]
  {
    var idx := start;
    while idx < end
      invariant start <= idx <= end && buf[..idx] == tail[base..base + idx]
    {
      buf[idx] := 0;
      idx := idx + 1;
    }
  }

  /** The bit length in the last eight octets, written from the end. */
  method FillLength(buf: array<octet>, len: nat, ghost last: seq<octet>)
    requires buf.Length == 64 && |last| == 64 && buf[..56] == last[..56] && last[56..] == BigEndian(8 * len, 8)
    modifies buf
    ensures buf[..] == last
  {
    var bitLen := 8 * len;
    for j := 0 to 8
      invariant buf[..56] == last[..56]
      invariant forall i | 64 - j <= i < 64 :: buf[i] == last[56..][i - 56]
    {
      BigEndianOctet(bitLen, 8, j);
      buf[63 - j] := OctetOf(ShiftOctets(bitLen, j));
    }
  }

  lemma FoldOne(h: Hash, tail: seq<octet>)
    requires |tail| in {64, 128}
    ensures |tail| == 64 ==> Fold(h, Blocks(tail)) == Compress(h, tail)
    ensures |tail| == 128 ==> Fold(h, Blocks(tail)) == Compress(Compress(h, tail[..64]), tail[64..])
  {
    if |tail| == 64 {
      assert tail[0..64] == tail && Blocks(tail)[0] == tail;
      assert Blocks(tail) == [tail] && [tail][..0] == [];
      assert Fold(h, [tail]) == Compress(Fold(h, []), tail);
    } else {
      var bs: seq<block> := [tail[..64], tail[64..]];
      assert Blocks(tail)[0] == bs[0] && Blocks(tail)[1] == bs[1];
      assert Blocks(tail) == bs && bs[..1] == [tail[..64]] && bs[..1][..0] == [];
      assert Fold(h, bs[..1]) == Compress(Fold(h, []), tail[..64]);
    }
  }
}
