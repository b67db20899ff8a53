/**
 * The two Base64 routines as they are written: the encoder of the bridge fills a caller's buffer
 * through a 24-bit accumulator and then overwrites the end with pads; the decoder of the web
 * servers fills a fresh buffer and stops storing at the computed length.
 */
module Base64Routines {
  import opened Common
  import opened Base64

  /** `Letter` is the encoder's 64-entry table; `Value` is the decoder's, which ends at 'z'. */
  const DECODING_TABLE_SIZE: nat := 123

  /** A division by shifting, given quotient and remainder. */
  lemma Shift(t: int, q: int, r: int, m: int)
    requires m in {0x4_0000, 0x1_0000, 0x1000, 0x100, 64} && 0 <= r < m && t == q * m + r
    ensures t / m == q
  {
  }

  lemma Mask(q: int, h: int, l: int, m: int)
    requires m in {64, 256} && 0 <= l < m && q == h * m + l
    ensures q % m == l
  {
  }

  /** `(a << 16) + (b << 8) + c`, and the four shifts and masks by 0x3F, on the parts of a, b, c. */
  lemma TripleShifts(a1: int, a0: int, b1: int, b0: int, c1: int, c0: int)
    requires 0 <= a1 < 64 && 0 <= a0 < 4 && 0 <= b1 < 16 && 0 <= b0 < 16 && 0 <= c1 < 4 && 0 <= c0 < 64
    ensures var t := (a1 * 4 + a0) * 0x1_0000 + (b1 * 16 + b0) * 0x100 + c1 * 64 + c0;
      && (t / 0x4_0000) % 64 == a1 && (t / 0x1000) % 64 == a0 * 16 + b1
      && (t / 64) % 64 == b0 * 4 + c1 && t % 64 == c0
  {
    var t := (a1 * 4 + a0) * 0x1_0000 + (b1 * 16 + b0) * 0x100 + c1 * 64 + c0;
    Shift(t, a1, a0 * 0x1_0000 + b1 * 0x1000 + b0 * 0x100 + c1 * 64 + c0, 0x4_0000);
    Mask(a1, 0, a1, 64);
    Shift(t, a1 * 64 + a0 * 16 + b1, b0 * 0x100 + c1 * 64 + c0, 0x1000);
    Mask(a1 * 64 + a0 * 16 + b1, a1, a0 * 16 + b1, 64);
    Shift(t, a1 * 4096 + a0 * 1024 + b1 * 64 + b0 * 4 + c1, c0, 64);
    Mask(a1 * 4096 + a0 * 1024 + b1 * 64 + b0 * 4 + c1, a1 * 64 + a0 * 16 + b1, b0 * 4 + c1, 64);
    Mask(t, a1 * 4096 + a0 * 1024 + b1 * 64 + b0 * 4 + c1, c0, 64);
  }

  lemma TripleSextets(a: byte, b: byte, c: byte)
    ensures var t := a * 0x1_0000 + b * 0x100 + c;
      && (t / 0x4_0000) % 64 == S0(a) && (t / 0x1000) % 64 == S1(a, b)
      && (t / 64) % 64 == S2(b, c) && t % 64 == S3(c)
  {
    TripleShifts(a / 4, a % 4, b / 16, b % 16, c / 64, c % 64);
  }

  /** `(w << 18) + (x << 12) + (y << 6) + z`, and the three shifts and masks by 0xFF, likewise. */
  lemma QuadShifts(w: int, x1: int, x0: int, y1: int, y0: int, z: int)
    requires 0 <= w < 64 && 0 <= x1 < 4 && 0 <= x0 < 16 && 0 <= y1 < 16 && 0 <= y0 < 4 && 0 <= z < 64
    ensures var t := w * 0x4_0000 + (x1 * 16 + x0) * 0x1000 + (y1 * 4 + y0) * 64 + z;
      && (t / 0x1_0000) % 256 == w * 4 + x1 && (t / 0x100) % 256 == x0 * 16 + y1
      && t % 256 == y0 * 64 + z
  {
    var t := w * 0x4_0000 + (x1 * 16 + x0) * 0x1000 + (y1 * 4 + y0) * 64 + z;
    Shift(t, w * 4 + x1, x0 * 0x1000 + y1 * 0x100 + y0 * 64 + z, 0x1_0000);
    Mask(w * 4 + x1, 0, w * 4 + x1, 256);
    Shift(t, w * 1024 + x1 * 256 + x0 * 16 + y1, y0 * 64 + z, 0x100);
    Mask(w * 1024 + x1 * 256 + x0 * 16 + y1, w * 4 + x1, x0 * 16 + y1, 256);
    Mask(t, w * 1024 + x1 * 256 + x0 * 16 + y1, y0 * 64 + z, 256);
  }

  lemma TripleOctets(w: sextet, x: sextet, y: sextet, z: sextet)
    ensures var t := w * 0x4_0000 + x * 0x1000 + y * 64 + z;
      && (t / 0x1_0000) % 256 == O0(w, x) && (t / 0x100) % 256 == O1(x, y) && t % 256 == O2(y, z)
  {
    QuadShifts(w, x / 16, x % 16, y / 4, y % 4, z);
  }

  lemma {:induction false} SextetsAt(e: seq<byte>, g: nat)
    requires |e| % 3 == 0 && 3 * g + 3 <= |e|
    ensures ToSextets(e)[4 * g..4 * g + 4] ==
      [S0(e[3 * g]), S1(e[3 * g], e[3 * g + 1]), S2(e[3 * g + 1], e[3 * g + 2]), S3(e[3 * g + 2])]
  {
    if g == 0 {
    } else {
      SextetsAt(e[3..], g - 1);
      assert ToSextets(e)[4 * g..4 * g + 4] == ToSextets(e[3..])[4 * g - 4..4 * g];
    }
  }

  lemma {:induction false} OctetsAt(v: seq<sextet>, g: nat)
    requires |v| % 4 == 0 && 4 * g + 4 <= |v|
    ensures ToOctets(v)[3 * g..3 * g + 3] ==
      [O0(v[4 * g], v[4 * g + 1]), O1(v[4 * g + 1], v[4 * g + 2]), O2(v[4 * g + 2], v[4 * g + 3])]
  {
    if g == 0 {
    } else {
      OctetsAt(v[4..], g - 1);
      assert ToOctets(v)[3 * g..3 * g + 3] == ToOctets(v[4..])[3 * g - 3..3 * g];
    }
  }

  /** Group g of the unpadded text. */
  function Group(e: seq<byte>, g: nat): (s: string)
    requires |e| % 3 == 0 && 3 * g + 3 <= |e|
    ensures |s| == 4
  {
    Spell(ToSextets(e))[4 * g..4 * g + 4]
  }

  /** One turn of the encoder's loop body: accumulator, four shifts and masks, four table lookups. */
  method EncodeGroup(a: byte, b: byte, c: byte, ghost e: seq<byte>, ghost g: nat) returns (s: string)
    requires |e| % 3 == 0 && 3 * g + 3 <= |e|
    requires a == e[3 * g] && b == e[3 * g + 1] && c == e[3 * g + 2]
    ensures s == Group(e, g)
  {
    hide S0, S1, S2, S3, ToSextets, Letter, Spell;
    var triple := a * 0x1_0000 + b * 0x100 + c;
    TripleSextets(a, b, c);
    s := [Letter((triple / 0x4_0000) % 64), Letter((triple / 0x1000) % 64),
          Letter((triple / 64) % 64), Letter(triple % 64)];
    SextetsAt(e, g);
    SpellGroup(ToSextets(e), g, s);
  }

  lemma SpellGroup(v: seq<sextet>, g: nat, s: string)
    requires 4 * g + 4 <= |v| && |s| == 4
    requires forall k | 0 <= k < 4 :: s[k] == Letter(v[4 * g..4 * g + 4][k])
    ensures s == Spell(v)[4 * g..4 * g + 4]
  {
  }

  /** The encoder's first loop. */
  method WriteLetters(data: seq<byte>, encoded: array<char>) returns (j: nat)
    requires encoded.Length > 4 * ((|data| + 2) / 3)
    modifies encoded
    ensures j == 4 * ((|data| + 2) / 3)
    ensures encoded[..j] == Spell(ToSextets(data + Zeros(PadCount(|data|))))
    ensures encoded[j..] == old(encoded[j..])
  {
    hide ToSextets, Spell, PadCount;
    ghost var e := data + Zeros(PadCount(|data|));
    ghost var text := Spell(ToSextets(e));
    ghost var g := 0;
    var i := 0;
    j := 0;
    while i < |data|
      invariant j == 4 * g && 3 * g <= |e| && i == Min(3 * g, |data|)
      invariant encoded[..j] == text[..j]
      invariant encoded[|text|..] == old(encoded[|text|..])
    {
      var a := data[i];
      var b := if i + 1 < |data| then data[i + 1] else 0;
      var c := if i + 2 < |data| then data[i + 2] else 0;
      var quad := EncodeGroup(a, b, c, e, g);
      Store(encoded, j, quad);
      assert text[..j + 4] == text[..j] + text[j..j + 4];
      i, j, g := Min(i + 3, |data|), j + 4, g + 1;
    }
    assert text[..j] == text;
  }

  method Store(a: array<char>, j: nat, quad: string)
    requires |quad| == 4 && j + 4 <= a.Length
    modifies a
    ensures a[..j + 4] == old(a[..j]) + quad
    ensures a[j + 4..] == old(a[j + 4..])
  {
    a[j], a[j + 1], a[j + 2], a[j + 3] := quad[0], quad[1], quad[2], quad[3];
  }

  /** `base64_encode`: the letters of all groups, pads over the last ones, and the terminator. */
  method Base64Encode(data: seq<byte>, encoded: array<char>)
    requires encoded.Length > 4 * ((|data| + 2) / 3)
    modifies encoded
    ensures var n := |Encode(data)|; encoded[..n] == Encode(data) && encoded[n] == '\0'
    ensures var n := |Encode(data)|; encoded[n + 1..] == old(encoded[n + 1..])
  {
    hide ToSextets, Spell, Zeros;
    var j := WriteLetters(data, encoded);
    WritePads(encoded, j, [0, 2, 1][|data| % 3]);
    assert encoded[j + 1..] == encoded[j..][1..];
    encoded[j] := '\0';
  }

  /** The encoder's second loop. */
  method WritePads(encoded: array<char>, j: nat, pads: nat)
    requires pads <= j <= encoded.Length
    modifies encoded
    ensures encoded[..j] == Padded(old(encoded[..j]), pads)
    ensures encoded[j..] == old(encoded[j..])
  {
    for k := 0 to pads
      invariant encoded[..j] == Padded(old(encoded[..j]), k)
      invariant encoded[j..] == old(encoded[j..])
    {
      encoded[j - 1 - k] := '=';
    }
  }

  /** One turn of the decoder's loop body: four lookups, accumulator, three shifts and masks. */
  method DecodeGroup(s: string, i: nat, ghost g: nat) returns (d: seq<byte>)
    requires |s| % 4 == 0 && i == 4 * g && i + 4 <= |s|
    ensures d == ToOctets(Values(s))[3 * g..3 * g + 3]
  {
    hide O0, O1, O2, ToOctets, Value;
    var w, x, y, z := Value(s[i]), Value(s[i + 1]), Value(s[i + 2]), Value(s[i + 3]);
    var triple: int := w as int * 0x4_0000 + x as int * 0x1000 + y as int * 64 + z as int;
    TripleOctets(w, x, y, z);
    d := [(triple / 0x1_0000) % 256, (triple / 0x100) % 256, triple % 256];
    OctetsAt(Values(s), g);
  }

  /** `base64_decode`, for text within its table: None when the length is not a multiple of four,
      otherwise the decoded octets and a zero octet behind them. */
  method Base64Decode(s: string) returns (r: Option<array<byte>>)
    requires s != [] && forall c | c in s :: c as int < DECODING_TABLE_SIZE
    ensures r.None? <==> |s| % 4 != 0
    ensures r.Some? ==> fresh(r.value) && r.value[..] == Decode(s) + [0]
  {
    if |s| % 4 != 0 {
      return None;
    }
    var length := |s| / 4 * 3;
    if s[|s| - 1] == '=' { length := length - 1; }
    if s[|s| - 2] == '=' { length := length - 1; }
    var decoded := new byte[length + 1];
    DecodeLoop(s, decoded, length);
    decoded[length] := 0;
    assert decoded[..] == decoded[..length] + [0];
    r := Some(decoded);
  }

  /** The decoder's loop over groups of four characters. */
  method DecodeLoop(s: string, decoded: array<byte>, length: nat)
    requires |s| % 4 == 0 && decoded.Length == length + 1 && length <= |s| / 4 * 3
    modifies decoded
    ensures decoded[..length] == ToOctets(Values(s))[..length]
  {
    hide ToOctets, Values;
    ghost var all := ToOctets(Values(s));
    ghost var g := 0;
    var i, j := 0, 0;
    while i < |s|
      invariant i == 4 * g && i <= |s| && j == Min(3 * g, length)
      invariant decoded[..j] == all[..j]
    {
      var d := DecodeGroup(s, i, g);
      j := StoreGuarded(decoded, j, length, d, all, 3 * g);
      i, g := i + 4, g + 1;
    }
  }

  /** The three guarded stores. */
  method StoreGuarded(decoded: array<byte>, j: nat, length: nat, d: seq<byte>, ghost all: seq<byte>, ghost at: nat)
    returns (j': nat)
    requires decoded.Length == length + 1 && |d| == 3 && at + 3 <= |all| && length <= |all|
    requires d == all[at..at + 3] && j == Min(at, length) && decoded[..j] == all[..j]
    modifies decoded
    ensures j' == Min(at + 3, length) && decoded[..j'] == all[..j']
  {
    j' := j;
    for k := 0 to 3
      invariant j' == Min(at + k, length) && decoded[..j'] == all[..j']
    {
      if j' < length {
        decoded[j'] := d[k];
        j' := j' + 1;
      }
    }
  }
}
