/**
 * Base64 across two programs: the encoder of the bridge and the decoder of the web servers,
 * against section 4 of RFC 4648.
 */
module Base64 {
  import opened Common

  type sextet = v: int | 0 <= v < 64

  /** Table 1 of RFC 4648. */
  function Letter(v: sextet): (c: char)
    ensures InAlphabet(c) && Value(c) == v
  {
    if v < 26 then 'A' + v as char
    else if v < 52 then 'a' + (v - 26) as char
    else if v < 62 then '0' + (v - 52) as char
    else if v == 62 then '+' else '/'
  }

  predicate InAlphabet(c: char) {
    'A' <= c <= 'Z' || 'a' <= c <= 'z' || '0' <= c <= '9' || c == '+' || c == '/'
  }

  /** The value of a letter; 0 for every other character, as in the decoder's table. */
  function Value(c: char): (v: sextet)
    ensures !InAlphabet(c) ==> v == 0
  {
    if 'A' <= c <= 'Z' then c as int - 65
    else if 'a' <= c <= 'z' then c as int - 71
    else if '0' <= c <= '9' then c as int + 4
    else if c == '+' then 62 else if c == '/' then 63 else 0
  }

  // The table as it is printed.

  function Upper(): string { "ABCDEFGHIJKLMNOPQRSTUVWXYZ" }

  function Lower(): string { "abcdefghijklmnopqrstuvwxyz" }

  function Table(): string { Upper() + Lower() + "0123456789+/" }

  lemma UpperRun(v: nat)
    requires v < 26
    ensures |Upper()| == 26 && Upper()[v] == 'A' + v as char
  {
  }

  lemma LowerRun(v: nat)
    requires v < 26
    ensures |Lower()| == 26 && Lower()[v] == 'a' + v as char
  {
  }

  /** Table 1 entry by entry; the decoder's table has the place of each of its letters. */
  lemma LetterIsTable(v: sextet)
    ensures |Table()| == 64 && Letter(v) == Table()[v] && Value(Table()[v]) == v
  {
    UpperRun(if v < 26 then v else 0);
    LowerRun(if 26 <= v < 52 then v - 26 else 0);
    hide Upper, Lower, Letter;
    assert v < 52 || Table()[v] == "0123456789+/"[v - 52];
    LetterRuns(v);
  }

  lemma LetterRuns(v: sextet)
    ensures v < 26 ==> Letter(v) == 'A' + v as char
    ensures 26 <= v < 52 ==> Letter(v) == 'a' + (v - 26) as char
    ensures v >= 52 ==> Letter(v) == "0123456789+/"[v - 52]
  {
  }

  // The regrouping of three octets (a, b, c) into four 6-bit values (w, x, y, z) and back.

  function S0(a: byte): sextet { a / 4 }

  function S1(a: byte, b: byte): sextet { a % 4 * 16 + b / 16 }

  function S2(b: byte, c: byte): sextet { b % 16 * 4 + c / 64 }

  function S3(c: byte): sextet { c % 64 }

  function O0(w: sextet, x: sextet): byte { w * 4 + x / 16 }

  function O1(x: sextet, y: sextet): byte { x % 16 * 16 + y / 4 }

  function O2(y: sextet, z: sextet): byte { y % 4 * 64 + z }

  lemma OctetsBack(a: byte, b: byte, c: byte)
    ensures O0(S0(a), S1(a, b)) == a && O1(S1(a, b), S2(b, c)) == b && O2(S2(b, c), S3(c)) == c
  {
  }

  lemma SextetsBack(w: sextet, x: sextet, y: sextet, z: sextet)
    ensures S0(O0(w, x)) == w && S1(O0(w, x), O1(x, y)) == x && S2(O1(x, y), O2(y, z)) == y && S3(O2(y, z)) == z
  {
  }

  /** The 6-bit values of a whole number of 24-bit groups, and the octets of such values. */
  function ToSextets(d: seq<byte>): (v: seq<sextet>)
    requires |d| % 3 == 0
    ensures |v| == |d| / 3 * 4
  {
    if d == [] then []
    else [S0(d[0]), S1(d[0], d[1]), S2(d[1], d[2]), S3(d[2])] + ToSextets(d[3..])
  }

  function ToOctets(v: seq<sextet>): (d: seq<byte>)
    requires |v| % 4 == 0
    ensures |d| == |v| / 4 * 3
  {
    if v == [] then []
    else [O0(v[0], v[1]), O1(v[1], v[2]), O2(v[2], v[3])] + ToOctets(v[4..])
  }

  function PadCount(n: nat): (p: nat)
    ensures p <= 2 && (n + p) % 3 == 0
  {
    (3 - n % 3) % 3
  }

  function Zeros(n: nat): (z: seq<byte>)
    ensures |z| == n
  {
    seq(n, _ => 0)
  }

  function Pads(n: nat): string { seq(n, _ => '=') }

  function Spell(v: seq<sextet>): (s: string)
    ensures |s| == |v|
  {
    seq(|v|, i requires 0 <= i < |v| => Letter(v[i]))
  }

  function Values(s: string): (v: seq<sextet>)
    ensures |v| == |s|
  {
    seq(|s|, i requires 0 <= i < |s| => Value(s[i]))
  }

  /** The last `p` characters replaced by pads. */
  function Padded(s: string, p: nat): (t: string)
    requires p <= |s|
    ensures |t| == |s|
  {
    s[..|s| - p] + Pads(p)
  }

  /** Section 4 of RFC 4648: zero bits complete the last group; the letters that would spell only
      missing octets become pads. */
  function Encode(d: seq<byte>): (s: string)
    ensures |s| == 4 * ((|d| + 2) / 3)
  {
    Padded(Spell(ToSextets(d + Zeros(PadCount(|d|)))), PadCount(|d|))
  }

  /** The decoder's output length: it looks at the last two characters. */
  function DecodedLength(s: string): (n: nat)
    requires s != [] && |s| % 4 == 0
    ensures |s| / 4 * 3 - 2 <= n <= |s| / 4 * 3
  {
    |s| / 4 * 3 - (if s[|s| - 1] == '=' then 1 else 0) - (if s[|s| - 2] == '=' then 1 else 0)
  }

  function Decode(s: string): (d: seq<byte>)
    requires s != [] && |s| % 4 == 0
    ensures |d| == DecodedLength(s)
  {
    ToOctets(Values(s))[..DecodedLength(s)]
  }

  /** Canonical encodings: letters, then at most two pads, with zero bits where the last letter has
      bits to spare (section 3.5). */
  predicate Canonical(s: string) {
    && s != [] && |s| % 4 == 0
    && (forall i | 0 <= i < |s| - 2 :: InAlphabet(s[i]))
    && (InAlphabet(s[|s| - 2]) || (s[|s| - 2] == '=' && s[|s| - 1] == '=' && Value(s[|s| - 3]) % 16 == 0))
    && (InAlphabet(s[|s| - 1]) || (s[|s| - 1] == '=' && Value(s[|s| - 2]) % 4 == 0))
  }

  // ---------------------------------------------------------------------------------------------
  // Round trips

  lemma {:induction false} OctetsOfSextets(d: seq<byte>)
    requires |d| % 3 == 0
    ensures ToOctets(ToSextets(d)) == d
  {
    if d == [] {
    } else {
      OctetsBack(d[0], d[1], d[2]);
      OctetsOfSextets(d[3..]);
      assert ToSextets(d)[4..] == ToSextets(d[3..]);
      assert d == [d[0], d[1], d[2]] + d[3..];
    }
  }

  lemma {:induction false} SextetsOfOctets(v: seq<sextet>)
    requires |v| % 4 == 0
    ensures ToSextets(ToOctets(v)) == v
  {
    if v == [] {
    } else {
      SextetsBack(v[0], v[1], v[2], v[3]);
      SextetsOfOctets(v[4..]);
      assert ToOctets(v)[3..] == ToOctets(v[4..]);
      assert v == [v[0], v[1], v[2], v[3]] + v[4..];
    }
  }

  lemma LastThree<T>(a: seq<T>, b: seq<T>)
    requires |b| >= 3
    ensures var n, m := |a + b|, |b|;
      (a + b)[n - 1] == b[m - 1] && (a + b)[n - 2] == b[m - 2] && (a + b)[n - 3] == b[m - 3]
  {
  }

  /** Zero octets regroup into zero values and spare zero bits. */
  lemma ZeroOctets(a: byte, b: byte, c: byte)
    ensures c == 0 ==> S3(c) == 0 && S2(b, c) % 4 == 0
    ensures b == 0 && c == 0 ==> S2(b, c) == 0 && S1(a, b) % 16 == 0
  {
  }

  /** Zero values and spare zero bits regroup into zero octets. */
  lemma ZeroValues(x: sextet, y: sextet, z: sextet)
    ensures y % 4 == 0 && z == 0 ==> O2(y, z) == 0
    ensures x % 16 == 0 && y == 0 ==> O1(x, y) == 0
  {
  }

  /** The last group of a longer string of octets. */
  lemma {:induction false} LastGroup(d: seq<byte>)
    requires |d| % 3 == 0 && d != []
    ensures var n, m := |d|, |ToSextets(d)|;
            && ToSextets(d)[m - 3] == S1(d[n - 3], d[n - 2])
            && ToSextets(d)[m - 2] == S2(d[n - 2], d[n - 1])
            && ToSextets(d)[m - 1] == S3(d[n - 1])
  {
    if |d| == 3 {
      assert ToSextets(d[3..]) == [];
    } else {
      LastGroup(d[3..]);
      LastThree([S0(d[0]), S1(d[0], d[1]), S2(d[1], d[2]), S3(d[2])], ToSextets(d[3..]));
    }
  }

  /** Where the last octets are zero, the sextets that pads replace are zero, and so are the bits
      the last letter has to spare. */
  lemma SpareBits(e: seq<byte>)
    requires |e| % 3 == 0 && e != []
    ensures var v, n, m := ToSextets(e), |e|, |ToSextets(e)|;
            && (e[n - 1] == 0 ==> v[m - 1] == 0 && v[m - 2] % 4 == 0)
            && (e[n - 2] == 0 && e[n - 1] == 0 ==> v[m - 2] == 0 && v[m - 3] % 16 == 0)
  {
    LastGroup(e);
    ZeroOctets(e[|e| - 3], e[|e| - 2], e[|e| - 1]);
  }

  lemma ZeroTail(d: seq<byte>, p: nat)
    ensures var e := d + Zeros(p); forall i | |d| <= i < |e| :: e[i] == 0
  {
  }

  /** `v` can be spelled with p pads: the pads replace zeros, and the spare bits are zero. */
  predicate Paddable(v: seq<sextet>, p: nat) {
    && v != [] && |v| % 4 == 0 && p <= 2
    && (p >= 1 ==> v[|v| - 1] == 0 && v[|v| - 2] % 4 == 0)
    && (p == 2 ==> v[|v| - 2] == 0 && v[|v| - 3] % 16 == 0)
  }

  /** How an encoding looks: as many pads at the end as octets are missing, letters before them,
      and every character still has the value of its sextet. */
  lemma PaddedShape(v: seq<sextet>, p: nat)
    requires Paddable(v, p)
    ensures var s := Padded(Spell(v), p);
            && (forall i | 0 <= i < |s| - p :: InAlphabet(s[i]))
            && (forall i | |s| - p <= i < |s| :: s[i] == '=')
            && Values(s) == v && Canonical(s)
            && DecodedLength(s) == |v| / 4 * 3 - p
  {
    var s := Padded(Spell(v), p);
    forall i | 0 <= i < |s|
      ensures Value(s[i]) == v[i] && (if i < |s| - p then InAlphabet(s[i]) else s[i] == '=')
    {
      if i < |s| - p { assert s[i] == Letter(v[i]); }
    }
    hide Padded, Spell, Letter;
  }

  lemma CanonicalShape(s: string)
    requires Canonical(s)
    ensures var p := |s| / 4 * 3 - DecodedLength(s);
            Paddable(Values(s), p) && Padded(Spell(Values(s)), p) == s
  {
  }

  lemma PaddedOctets(d: seq<byte>)
    requires d != []
    ensures var e, p := d + Zeros(PadCount(|d|)), PadCount(|d|);
            && |e| % 3 == 0 && |e| >= 3
            && (p >= 1 ==> e[|e| - 1] == 0) && (p == 2 ==> e[|e| - 2] == 0)
  {
    ZeroTail(d, PadCount(|d|));
    hide Zeros;
  }

  lemma SextetCount(e: seq<byte>)
    requires |e| % 3 == 0 && |e| >= 3
    ensures |ToSextets(e)| % 4 == 0 && |ToSextets(e)| >= 4
  {
    assert |ToSextets(e)| == 4 * (|e| / 3);
  }

  lemma ZerosPaddable(e: seq<byte>, p: nat)
    requires |e| % 3 == 0 && |e| >= 3 && p <= 2
    requires (p >= 1 ==> e[|e| - 1] == 0) && (p == 2 ==> e[|e| - 2] == 0)
    ensures Paddable(ToSextets(e), p)
  {
    hide ToSextets;
    SextetCount(e);
    SpareBits(e);
  }

  lemma EncodedShape(d: seq<byte>)
    requires d != []
    ensures var e, p := d + Zeros(PadCount(|d|)), PadCount(|d|); |e| % 3 == 0 && Paddable(ToSextets(e), p)
  {
    PaddedOctets(d);
    hide Paddable, ToSextets, Zeros;
    ZerosPaddable(d + Zeros(PadCount(|d|)), PadCount(|d|));
  }

  /** Decoding what the encoder wrote gives back the same bytes and the same length; the encoding is
      canonical and ends in exactly as many pads as octets are missing. */
  lemma DecodeEncode(d: seq<byte>)
    requires d != []
    ensures Canonical(Encode(d)) && Decode(Encode(d)) == d
    ensures forall i | 0 <= i < |Encode(d)| :: Encode(d)[i] == '=' <==> i >= |Encode(d)| - PadCount(|d|)
  {
    hide ToSextets, ToOctets, Spell, Values, Padded, Zeros, PadCount, DecodedLength;
    var p := PadCount(|d|);
    EncodedShape(d);
    PaddedShape(ToSextets(d + Zeros(p)), p);
    OctetsOfSextets(d + Zeros(p));
  }

  lemma {:induction false} LastOctets(v: seq<sextet>)
    requires |v| % 4 == 0 && v != []
    ensures var n, m := |v|, |ToOctets(v)|;
            ToOctets(v)[m - 2] == O1(v[n - 3], v[n - 2]) && ToOctets(v)[m - 1] == O2(v[n - 2], v[n - 1])
  {
    if |v| == 4 {
      assert ToOctets(v[4..]) == [];
    } else {
      LastOctets(v[4..]);
      LastThree([O0(v[0], v[1]), O1(v[1], v[2]), O2(v[2], v[3])], ToOctets(v[4..]));
    }
  }

  lemma SpareOctets(v: seq<sextet>, p: nat)
    requires Paddable(v, p)
    ensures var o := ToOctets(v); (p >= 1 ==> o[|o| - 1] == 0) && (p == 2 ==> o[|o| - 2] == 0)
  {
    LastOctets(v);
    ZeroValues(v[|v| - 3], v[|v| - 2], v[|v| - 1]);
  }

  lemma Refill(o: seq<byte>, p: nat)
    requires p <= 2 <= |o| && (p >= 1 ==> o[|o| - 1] == 0) && (p == 2 ==> o[|o| - 2] == 0)
    ensures o[..|o| - p] + Zeros(p) == o
  {
  }

  /** Encoding the decoding of a canonical encoding gives it back: encoder and decoder are inverse
      bijections between non-empty byte strings and canonical encodings. */
  lemma EncodeDecode(s: string)
    requires Canonical(s)
    ensures Decode(s) != [] && Encode(Decode(s)) == s
  {
    var v, p := Values(s), |s| / 4 * 3 - DecodedLength(s);
    CanonicalShape(s);
    hide Canonical, Spell, Values, ToOctets, ToSextets, Padded, Encode;
    SpareOctets(v, p);
    Refill(ToOctets(v), p);
    hide Zeros, Paddable;
    SextetsOfOctets(v);
    EncodeOf(Decode(s), p, v);
  }

  lemma PadUnique(n: nat, p: nat)
    requires p <= 2 && (n + p) % 3 == 0
    ensures p == PadCount(n)
  {
  }

  lemma EncodeOf(d: seq<byte>, p: nat, v: seq<sextet>)
    requires p <= 2 && |d + Zeros(p)| % 3 == 0 && ToSextets(d + Zeros(p)) == v
    ensures Encode(d) == Padded(Spell(v), p)
  {
    PadUnique(|d|, p);
  }

  // ---------------------------------------------------------------------------------------------
  // Test vectors of section 10 of RFC 4648: "fooba" and "foobar"

  lemma OneGroup(a: byte, b: byte, c: byte, rest: seq<byte>)
    requires |rest| % 3 == 0
    ensures |[a, b, c] + rest| % 3 == 0
    ensures ToSextets([a, b, c] + rest) == [S0(a), S1(a, b), S2(b, c), S3(c)] + ToSextets(rest)
  {
    assert ([a, b, c] + rest)[3..] == rest;
  }

  lemma PublishedSextets()
    ensures ToSextets([102, 111, 111, 98, 97, 0]) == [25, 38, 61, 47, 24, 38, 4, 0]
    ensures ToSextets([102, 111, 111, 98, 97, 114]) == [25, 38, 61, 47, 24, 38, 5, 50]
  {
    assert ToSextets([]) == [];
    hide ToSextets;
    OneGroup(98, 97, 0, []);
    OneGroup(98, 97, 114, []);
    assert [98, 97, 0] + [] == [98, 97, 0] && [98, 97, 114] + [] == [98, 97, 114];
    OneGroup(102, 111, 111, [98, 97, 0]);
    OneGroup(102, 111, 111, [98, 97, 114]);
    assert [102, 111, 111] + [98, 97, 0] == [102, 111, 111, 98, 97, 0];
    assert [102, 111, 111] + [98, 97, 114] == [102, 111, 111, 98, 97, 114];
  }

  lemma PublishedVectors()
    ensures Encode([102, 111, 111, 98, 97]) == "Zm9vYmE=" && Encode([102, 111, 111, 98, 97, 114]) == "Zm9vYmFy"
  {
    PublishedSextets();
    hide ToSextets;
    assert [102, 111, 111, 98, 97] + Zeros(1) == [102, 111, 111, 98, 97, 0];
    assert [102, 111, 111, 98, 97, 114] + Zeros(0) == [102, 111, 111, 98, 97, 114];
    assert Spell([25, 38, 61, 47, 24, 38, 4, 0]) == "Zm9vYmEA";
    assert Spell([25, 38, 61, 47, 24, 38, 5, 50]) == "Zm9vYmFy";
    assert "Zm9vYmEA"[..7] + Pads(1) == "Zm9vYmE=" && "Zm9vYmFy"[..8] + Pads(0) == "Zm9vYmFy";
  }
}
