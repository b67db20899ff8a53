/**
 * The decoder for form data of request_song.c, and percent-encoding as section 2.1 of RFC 3986
 * defines it, with '+' for a space.
 */
module UrlDecode {
  import opened Common
  import opened Hexadecimal

  const PERCENT: byte := 37
  const PLUS: byte := 43
  const SPACE: byte := 32

  // ---------------------------------------------------------------------------------------------
  // Escapes

  predicate Blank(c: byte) {
    c == SPACE || 9 <= c <= 13
  }

  /** `strtoul` in base 16 of a string of at most one character. */
  function OneDigit(c: byte): nat {
    var v := HexValue(c);
    if v.Some? then v.value else 0
  }

  /** `(char) strtoul(code, &end, 16)` of the string of the two characters a and b: blanks are
      skipped, a sign is taken, and a lone digit counts. */
  function Code(a: byte, b: byte): byte {
    if Blank(a) || a == PLUS then OneDigit(b)
    else if a == 45 then (256 - OneDigit(b)) % 256
    else
      match (HexValue(a), HexValue(b))
      case (Some(x), Some(y)) => 16 * x + y
      case (Some(x), None) => x
      case _ => 0
  }

  // `strtoul` in base 16 as section 7.22.1.4 of the C standard describes it: white space, a sign, and
  // the digits up to the first other character.  (A prefix "0x" needs a digit behind it to matter.)

  function SkipBlanks(s: seq<byte>): seq<byte> {
    if s != [] && s[0] in {9, 10, 11, 12, 13, 32} then SkipBlanks(s[1..]) else s
  }

  function DigitsValue(s: seq<byte>, acc: nat): nat {
    if s != [] && HexValue(s[0]).Some? then DigitsValue(s[1..], 16 * acc + HexValue(s[0]).value) else acc
  }

  function Strtoul(s: seq<byte>): int {
    var t := SkipBlanks(s);
    if t != [] && t[0] as char == '-' then 0 - DigitsValue(t[1..], 0)
    else if t != [] && t[0] as char == '+' then DigitsValue(t[1..], 0)
    else DigitsValue(t, 0)
  }

  lemma OneCharacter(b: byte, acc: nat)
    ensures DigitsValue([b], acc) == if HexValue(b).Some? then 16 * acc + HexValue(b).value else acc
    ensures Strtoul([b]) == OneDigit(b)
  {
    assert [b][1..] == [] && SkipBlanks([]) == [];
    assert [b] != [] && [b][0] == b;
  }

  lemma BlanksSkipped(a: byte, b: byte)
    ensures SkipBlanks([a, b]) == if Blank(a) then SkipBlanks([b]) else [a, b]
  {
    assert [a, b][1..] == [b];
  }

  lemma TwoCharacters(a: byte, b: byte)
    ensures [a, b][0] == a && [a, b][1..] == [b]
    ensures DigitsValue([a, b], 0) == if HexValue(a).Some? then DigitsValue([b], HexValue(a).value) else 0
  {
  }

  lemma StrtoulOfTwo(a: byte, b: byte)
    ensures Strtoul([a, b]) ==
      if Blank(a) || a == PLUS then OneDigit(b)
      else if a == 45 then 0 - OneDigit(b)
      else if HexValue(a).None? then 0
      else if HexValue(b).None? then HexValue(a).value
      else 16 * HexValue(a).value + HexValue(b).value
  {
    BlanksSkipped(a, b);
    TwoCharacters(a, b);
    OneCharacter(b, 0);
    if HexValue(a).Some? { OneCharacter(b, HexValue(a).value); }
    hide SkipBlanks, DigitsValue, HexValue;
  }

  /** The octet is the low eight bits of the number, for every pair of characters. */
  lemma CodeIsStrtoul(a: byte, b: byte)
    ensures Code(a, b) == Strtoul([a, b]) % 256
  {
    hide Strtoul;
    StrtoulOfTwo(a, b);
  }

  // ---------------------------------------------------------------------------------------------
  // The decoder

  /** What is written before the final NUL when decoding starts at position p of the memory; None
      if the memory is left.  An escape cut short by the end of the string skips its NUL. */
  function Scan(mem: seq<byte>, p: nat): (r: Option<seq<byte>>)
    ensures r.Some? ==> p + |r.value| < |mem|
    decreases |mem| - p
  {
    if p >= |mem| then None
    else if mem[p] == 0 then Some([])
    else if mem[p] == PERCENT then
      if p + 2 >= |mem| then None
      else
        var rest := Scan(mem, p + 3);
        if rest.None? then None else Some([Code(mem[p + 1], mem[p + 2])] + rest.value)
    else
      var rest := Scan(mem, p + 1);
      if rest.None? then None else Some([if mem[p] == PLUS then SPACE else mem[p]] + rest.value)
  }

  /** What has been written when the decoder is at position p. */
  predicate Written(mem: seq<byte>, p: nat, out: seq<byte>) {
    var rest := Scan(mem, p);
    Scan(mem, 0) == if rest.None? then None else Some(out + rest.value)
  }

  lemma Regroup(out: seq<byte>, c: byte, rest: seq<byte>)
    ensures out + ([c] + rest) == out + [c] + rest
  {
  }

  lemma WrittenNext(mem: seq<byte>, p: nat, out: seq<byte>, c: byte, q: nat)
    requires Written(mem, p, out)
    requires Scan(mem, p) == if Scan(mem, q).None? then None else Some([c] + Scan(mem, q).value)
    ensures Written(mem, q, out + [c])
  {
    var rest := Scan(mem, q);
    hide Scan;
    if rest.Some? { Regroup(out, c, rest.value); }
  }

  lemma WriteOne(mem: seq<byte>, p: nat, out: seq<byte>)
    requires p < |mem| && mem[p] != 0 && Written(mem, p, out)
    ensures mem[p] == PERCENT && p + 2 >= |mem| ==> Scan(mem, 0).None?
    ensures mem[p] == PERCENT && p + 2 < |mem| ==> Written(mem, p + 3, out + [Code(mem[p + 1], mem[p + 2])])
    ensures mem[p] != PERCENT ==> Written(mem, p + 1, out + [if mem[p] == PLUS then SPACE else mem[p]])
  {
    hide Code;
    if mem[p] != PERCENT {
      WrittenNext(mem, p, out, if mem[p] == PLUS then SPACE else mem[p], p + 1);
    } else if p + 2 < |mem| {
      WrittenNext(mem, p, out, Code(mem[p + 1], mem[p + 2]), p + 3);
    }
  }

  /** `url_decode`.  The result is never longer than the text, so a destination as large as the
      source is large enough. */
  method UrlDecode(src: array<byte>, dest: array<byte>) returns (inside: bool, n: nat)
    requires src != dest && dest.Length >= src.Length
    modifies dest
    ensures inside <==> Scan(src[..], 0).Some?
    ensures inside ==> n < dest.Length && dest[..n] == Scan(src[..], 0).value && dest[n] == 0
    ensures forall i | n < i < dest.Length :: dest[i] == old(dest[i])
  {
    var p := 0;
    n := 0;
    ghost var mem, out: seq<byte> := src[..], [];
    assert Written(mem, 0, out) by {
      if Scan(mem, 0).Some? { assert [] + Scan(mem, 0).value == Scan(mem, 0).value; }
    }
    while p < src.Length && src[p] != 0
      invariant n <= p && |out| == n <= dest.Length && Written(mem, p, out)
      invariant forall i | 0 <= i < n :: dest[i] == out[i]
      invariant forall i | n <= i < dest.Length :: dest[i] == old(dest[i])
      decreases src.Length - p
    {
      hide Written, Scan, Code;
      WriteOne(mem, p, out);
      var c: byte;
      var next := p + 1;
      if src[p] == PERCENT {
        if p + 2 >= src.Length { return false, n; }
        c := Code(src[p + 1], src[p + 2]);
        next := p + 3;
      } else if src[p] == PLUS {
        c := SPACE;
      } else {
        c := src[p];
      }
      dest[n], out := c, out + [c];
      n, p := n + 1, next;
    }
    if p >= src.Length { return false, n; }
    dest[n] := 0;
    assert dest[..n] == out;
    return true, n;
  }

  // ---------------------------------------------------------------------------------------------
  // Percent-encoding

  /** How one octet is written: as itself, as '+', or as an escape, its digits in either case. */
  datatype Style = Plain | Plus | Escape(upperHigh: bool, upperLow: bool)

  predicate Fits(b: byte, style: Style) {
    match style
    case Plain => b != 0 && b != PERCENT && b != PLUS
    case Plus => b == SPACE
    case Escape(_, _) => true
  }

  function EncodeOne(b: byte, style: Style): seq<byte> {
    match style
    case Plain => [b]
    case Plus => [PLUS]
    case Escape(high, low) => [PERCENT, HexDigit(b / 16, high), HexDigit(b % 16, low)]
  }

  function Encode(data: seq<byte>, styles: seq<Style>): seq<byte>
    requires |data| == |styles|
  {
    if data == [] then [] else EncodeOne(data[0], styles[0]) + Encode(data[1..], styles[1..])
  }

  predicate Encodes(data: seq<byte>, styles: seq<Style>) {
    |data| == |styles| && forall i | 0 <= i < |data| :: Fits(data[i], styles[i])
  }

  lemma CodeOfDigits(b: byte, high: bool, low: bool)
    ensures Code(HexDigit(b / 16, high), HexDigit(b % 16, low)) == b
  {
  }

  /** One encoded octet in the memory at position p. */
  lemma ScanOne(mem: seq<byte>, p: nat, b: byte, style: Style)
    requires Fits(b, style) && p + |EncodeOne(b, style)| < |mem|
    requires mem[p..p + |EncodeOne(b, style)|] == EncodeOne(b, style)
    ensures Scan(mem, p + |EncodeOne(b, style)|).Some? ==>
              Scan(mem, p) == Some([b] + Scan(mem, p + |EncodeOne(b, style)|).value)
  {
    var one := EncodeOne(b, style);
    var part := mem[p..p + |one|];
    assert part[0] == mem[p];
    if style.Escape? {
      CodeOfDigits(b, style.upperHigh, style.upperLow);
      assert part[1] == mem[p + 1] && part[2] == mem[p + 2];
    }
  }

  lemma Parts(mem: seq<byte>, p: nat, a: seq<byte>, b: seq<byte>)
    requires p + |a| + |b| <= |mem| && mem[p..p + |a| + |b|] == a + b
    ensures mem[p..p + |a|] == a && mem[p + |a|..p + |a| + |b|] == b
  {
    assert mem[p..p + |a|] == (a + b)[..|a|];
    assert mem[p + |a|..p + |a| + |b|] == (a + b)[|a|..];
  }

  /** Decoding any percent-encoding of any octets returns them, whatever lies behind the string. */
  lemma {:induction false} DecodeEncoded(mem: seq<byte>, p: nat, data: seq<byte>, styles: seq<Style>)
    requires Encodes(data, styles) && p + |Encode(data, styles)| < |mem|
    requires mem[p..p + |Encode(data, styles)|] == Encode(data, styles) && mem[p + |Encode(data, styles)|] == 0
    ensures Scan(mem, p) == Some(data)
    decreases |data|
  {
    hide EncodeOne, Fits;
    if data == [] {
      assert mem[p] == 0;
    } else {
      var one, rest := EncodeOne(data[0], styles[0]), Encode(data[1..], styles[1..]);
      Parts(mem, p, one, rest);
      ScanOne(mem, p, data[0], styles[0]);
      hide Scan, Encode;
      DecodeEncoded(mem, p + |one|, data[1..], styles[1..]);
      assert [data[0]] + data[1..] == data;
    }
  }

  /** "%2Fb+%e9" is decoded to its four octets. */
  lemma Example(after: seq<byte>)
    ensures Scan([37, 50, 70, 98, 43, 37, 101, 57, 0] + after, 0) == Some([47, 98, 32, 233])
  {
    var text, styles := [37, 50, 70, 98, 43, 37, 101, 57], [Escape(true, true), Plain, Plus, Escape(false, true)];
    ExampleText();
    hide Scan, Encode, EncodeOne;
    var mem := [37, 50, 70, 98, 43, 37, 101, 57, 0] + after;
    assert mem[..8] == text;
    DecodeEncoded(mem, 0, [47, 98, 32, 233], styles);
  }

  lemma ExampleText()
    ensures Encode([47, 98, 32, 233], [Escape(true, true), Plain, Plus, Escape(false, true)]) ==
            [37, 50, 70, 98, 43, 37, 101, 57]
  {
    assert Encode([], []) == [];
    assert Encode([233], [Escape(false, true)]) == [37, 101, 57];
    assert Encode([32, 233], [Plus, Escape(false, true)]) == [43, 37, 101, 57];
    assert Encode([98, 32, 233], [Plain, Plus, Escape(false, true)]) == [98, 43, 37, 101, 57];
  }

  // ---------------------------------------------------------------------------------------------
  // The other direction

  /** Every '%' is followed by two hexadecimal digits, from position p on. */
  predicate WellFormed(text: seq<byte>, p: nat)
    requires p <= |text|
    decreases |text| - p
  {
    if p == |text| then true
    else if text[p] == 0 then false
    else if text[p] == PERCENT then
      p + 2 < |text| && HexValue(text[p + 1]).Some? && HexValue(text[p + 2]).Some? && WellFormed(text, p + 3)
    else WellFormed(text, p + 1)
  }

  lemma DigitsOfCode(a: byte, b: byte) returns (style: Style)
    requires HexValue(a).Some? && HexValue(b).Some?
    ensures style.Escape? && EncodeOne(Code(a, b), style) == [PERCENT, a, b]
  {
    style := Escape(a < 97, b < 97);
    var x, y := HexValue(a).value, HexValue(b).value;
    assert (16 * x + y) / 16 == x && (16 * x + y) % 16 == y;
  }

  lemma {:induction false} WellFormedFrom(a: seq<byte>, b: seq<byte>, p: nat)
    requires p <= |b|
    ensures WellFormed(a + b, |a| + p) == WellFormed(b, p)
    decreases |b| - p
  {
    if p == |b| {
    } else if b[p] == PERCENT {
      if p + 2 < |b| { WellFormedFrom(a, b, p + 3); }
    } else {
      WellFormedFrom(a, b, p + 1);
    }
  }

  /** Conversely, every percent-encoding is well-formed. */
  lemma {:induction false} EncodedWellFormed(data: seq<byte>, styles: seq<Style>)
    requires Encodes(data, styles)
    ensures WellFormed(Encode(data, styles), 0)
  {
    if data == [] {
    } else {
      var one, rest := EncodeOne(data[0], styles[0]), Encode(data[1..], styles[1..]);
      EncodedWellFormed(data[1..], styles[1..]);
      WellFormedFrom(one, rest, 0);
    }
  }

  /** The octet and the style that a well-formed text has at position p. */
  lemma StyleAt(text: seq<byte>, p: nat) returns (b: byte, style: Style, q: nat)
    requires p < |text| && WellFormed(text, p)
    ensures Fits(b, style) && p < q <= |text| && EncodeOne(b, style) == text[p..q] && WellFormed(text, q)
  {
    if text[p] == PERCENT {
      style := DigitsOfCode(text[p + 1], text[p + 2]);
      b, q := Code(text[p + 1], text[p + 2]), p + 3;
    } else {
      q := p + 1;
      b, style := if text[p] == PLUS then SPACE else text[p], if text[p] == PLUS then Plus else Plain;
    }
  }

  lemma EncodeCons(b: byte, style: Style, d: seq<byte>, s: seq<Style>)
    requires Fits(b, style) && Encodes(d, s)
    ensures Encodes([b] + d, [style] + s)
    ensures Encode([b] + d, [style] + s) == EncodeOne(b, style) + Encode(d, s)
  {
    hide EncodeOne, Fits;
    assert ([b] + d)[1..] == d && ([style] + s)[1..] == s;
  }

  /** Every well-formed text is a percent-encoding of what it decodes to. */
  lemma {:induction false} EncodeDecoded(text: seq<byte>, p: nat, after: seq<byte>)
    returns (data: seq<byte>, styles: seq<Style>)
    requires p <= |text| && WellFormed(text, p)
    ensures Scan(text + [0] + after, p) == Some(data)
    ensures Encodes(data, styles) && Encode(data, styles) == text[p..]
    decreases |text| - p
  {
    hide EncodeOne, WellFormed, Fits, Scan, Encode, Encodes;
    if p == |text| {
      data, styles := [], [];
      TextEnds(text, after);
    } else {
      var b, style, q := StyleAt(text, p);
      var d, s := EncodeDecoded(text, q, after);
      var mem := text + [0] + after;
      assert mem[p..q] == text[p..q] && |EncodeOne(b, style)| == q - p;
      ScanOne(mem, p, b, style);
      EncodeCons(b, style, d, s);
      data, styles := [b] + d, [style] + s;
      assert text[p..] == text[p..q] + text[q..];
    }
  }

  lemma TextEnds(text: seq<byte>, after: seq<byte>)
    ensures Scan(text + [0] + after, |text|) == Some([])
    ensures Encodes([], []) && Encode([], []) == text[|text|..]
  {
  }

  /** Every escape met from position p on has two characters, of whatever kind. */
  predicate Closed(text: seq<byte>, p: nat)
    requires p <= |text|
    decreases |text| - p
  {
    if p == |text| then true
    else if text[p] == PERCENT then p + 2 < |text| && Closed(text, p + 3)
    else Closed(text, p + 1)
  }

  /** The decoder stops at the NUL that ends its string, whatever lies behind it, if and only if no
      escape is cut short by it. */
  lemma {:induction false} StaysInside(text: seq<byte>, p: nat, after: seq<byte>)
    requires p <= |text| && 0 !in text
    ensures Scan(text + [0], p).Some? <==> Closed(text, p)
    ensures Closed(text, p) ==> Scan(text + [0] + after, p) == Scan(text + [0], p)
    decreases |text| - p
  {
    if p == |text| {
    } else {
      assert text[p] in text;
      if text[p] != PERCENT {
        StaysInside(text, p + 1, after);
      } else if p + 2 < |text| {
        StaysInside(text, p + 3, after);
      }
    }
  }
}
