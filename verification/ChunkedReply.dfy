/**
 * The chunked transfer coding: the reply of request_song.c, the framing of the radio stream, and a
 * decoder written from section 7.1 of RFC 9112.
 */
module ChunkedReply {
  import opened Common
  import opened Hexadecimal

  const CR: byte := 13
  const LF: byte := 10
  const CRLF: seq<byte> := [CR, LF]

  // ---------------------------------------------------------------------------------------------
  // Sizes

  /** "%lX" or "%lx". */
  function Hex(n: nat, upper: bool): (s: seq<byte>)
    ensures s != []
  {
    if n < 16 then [HexDigit(n, upper)] else Hex(n / 16, upper) + [HexDigit(n % 16, upper)]
  }

  // ---------------------------------------------------------------------------------------------
  // The decoder: chunk-size CRLF chunk-data CRLF, ended by a chunk of size 0 and an empty trailer

  /** The digits of a chunk size, to the first other octet: the number, and what follows. */
  function TakeSize(s: seq<byte>, acc: nat): (r: (nat, seq<byte>))
    ensures |r.1| <= |s|
    decreases |s|
  {
    if s != [] && HexValue(s[0]).Some? then TakeSize(s[1..], 16 * acc + HexValue(s[0]).value) else (acc, s)
  }

  function Skip(s: seq<byte>, p: seq<byte>): (r: Option<seq<byte>>)
    ensures r.Some? ==> s == p + r.value
  {
    if p <= s then Some(s[|p|..]) else None
  }

  /** The next chunk: its data and what follows it. */
  function TakeChunk(s: seq<byte>): (r: Option<(seq<byte>, seq<byte>)>)
    ensures r.Some? ==> |r.value.1| < |s|
  {
    if s == [] || HexValue(s[0]).None? then None
    else
      var (size, line) := TakeSize(s, 0);
      var data := Skip(line, CRLF);
      if data.None? || |data.value| < size then None
      else
        var end := Skip(data.value[size..], CRLF);
        if end.None? then None else Some((data.value[..size], end.value))
  }

  /** The body that s begins with, and what follows it. */
  function DecodeBody(s: seq<byte>): Option<(seq<byte>, seq<byte>)>
    decreases |s|
  {
    var c := TakeChunk(s);
    if c.None? then None
    else if c.value.0 == [] then Some(c.value)
    else
      var rest := DecodeBody(c.value.1);
      if rest.None? then None else Some((c.value.0 + rest.value.0, rest.value.1))
  }

  // ---------------------------------------------------------------------------------------------
  // One chunk

  function Frame(data: seq<byte>, upper: bool): seq<byte> {
    Hex(|data|, upper) + CRLF + data + CRLF
  }

  predicate Digits(s: seq<byte>) {
    forall i | 0 <= i < |s| :: HexValue(s[i]).Some?
  }

  function Number(s: seq<byte>, acc: nat): nat
    requires Digits(s)
    decreases |s|
  {
    if s == [] then acc else Number(s[1..], 16 * acc + HexValue(s[0]).value)
  }

  lemma {:induction false} TakeDigits(d: seq<byte>, s: seq<byte>, acc: nat)
    requires Digits(d) && (s == [] || HexValue(s[0]).None?)
    ensures TakeSize(d + s, acc) == (Number(d, acc), s)
    decreases |d|
  {
    if d == [] {
      assert d + s == s;
    } else {
      assert (d + s)[1..] == d[1..] + s;
      TakeDigits(d[1..], s, 16 * acc + HexValue(d[0]).value);
    }
  }

  lemma {:induction false} NumberSnoc(d: seq<byte>, c: byte, acc: nat)
    requires Digits(d) && HexValue(c).Some?
    ensures Number(d + [c], acc) == 16 * Number(d, acc) + HexValue(c).value
    decreases |d|
  {
    if d == [] {
      assert (d + [c])[1..] == [];
    } else {
      assert (d + [c])[1..] == d[1..] + [c];
      NumberSnoc(d[1..], c, 16 * acc + HexValue(d[0]).value);
    }
  }

  lemma {:induction false} NumberOfHex(n: nat, upper: bool)
    ensures Digits(Hex(n, upper)) && Number(Hex(n, upper), 0) == n
    decreases n
  {
    if n < 16 {
      assert [HexDigit(n, upper)][1..] == [];
    } else {
      NumberOfHex(n / 16, upper);
      NumberSnoc(Hex(n / 16, upper), HexDigit(n % 16, upper), 0);
    }
  }

  /** A chunk sent completely is read back, whatever follows. */
  lemma TakeFrame(data: seq<byte>, upper: bool, rest: seq<byte>)
    ensures TakeChunk(Frame(data, upper) + rest) == Some((data, rest))
  {
    var hex, line := Hex(|data|, upper), CRLF + data + CRLF + rest;
    assert Frame(data, upper) + rest == hex + line;
    NumberOfHex(|data|, upper);
    TakeDigits(hex, line, 0);
    assert line[2..] == data + CRLF + rest;
    assert (data + CRLF + rest)[..|data|] == data && (data + CRLF + rest)[|data|..] == CRLF + rest;
  }

  // ---------------------------------------------------------------------------------------------
  // The reply

  /** The text of a line `fgets` has read, as `strlen` and "%s" see it. */
  function Text(line: seq<byte>): (t: seq<byte>)
    ensures t <= line && 0 !in t
    ensures t == line <==> 0 !in line
  {
    if line == [] || line[0] == 0 then []
    else
      assert line == [line[0]] + line[1..];
      [line[0]] + Text(line[1..])
  }

  function Texts(lines: seq<seq<byte>>): seq<byte> {
    if lines == [] then [] else Text(lines[0]) + Texts(lines[1..])
  }

  /** What is sent for one line of the child's output. */
  function Sent(line: seq<byte>): seq<byte> {
    if Text(line) == [] then [] else Frame(Text(line), true)
  }

  function Chunks(lines: seq<seq<byte>>): seq<byte> {
    if lines == [] then [] else Sent(lines[0]) + Chunks(lines[1..])
  }

  const LAST_CHUNK: seq<byte> := [48] + CRLF + CRLF

  method Reply(lines: seq<seq<byte>>) returns (out: seq<byte>)
    ensures out == Chunks(lines) + LAST_CHUNK
  {
    hide Hex, Text, Chunks;
    out := [];
    assert lines[0..] == lines;
    for i := 0 to |lines|
      invariant out + Chunks(lines[i..]) == Chunks(lines)
    {
      ChunksFrom(lines, i);
      var lineLen := |Text(lines[i])|;
      if lineLen == 0 { continue; }
      out := out + (Hex(lineLen, true) + CRLF + Text(lines[i]) + CRLF);
    }
    ChunksFrom(lines, |lines|);
    out := out + ([48] + CRLF + CRLF);
  }

  lemma ChunksFrom(lines: seq<seq<byte>>, i: nat)
    requires i <= |lines|
    ensures Chunks(lines[i..]) == if i < |lines| then Sent(lines[i]) + Chunks(lines[i + 1..]) else []
  {
  }

  /** A chunk that is not empty is prepended to the body behind it. */
  lemma DecodeData(data: seq<byte>, upper: bool, tail: seq<byte>)
    requires data != [] && DecodeBody(tail).Some?
    ensures DecodeBody(Frame(data, upper) + tail) ==
            Some((data + DecodeBody(tail).value.0, DecodeBody(tail).value.1))
  {
    TakeFrame(data, upper, tail);
  }

  lemma DecodeSent(line: seq<byte>, tail: seq<byte>)
    requires DecodeBody(tail).Some?
    ensures DecodeBody(Sent(line) + tail) ==
            Some((Text(line) + DecodeBody(tail).value.0, DecodeBody(tail).value.1))
  {
    if Text(line) == [] {
      assert Sent(line) + tail == tail;
      assert [] + DecodeBody(tail).value.0 == DecodeBody(tail).value.0;
    } else {
      DecodeData(Text(line), true, tail);
    }
  }

  /** Frames in front of a body are prepended to it. */
  lemma {:induction false} DecodeChunks(lines: seq<seq<byte>>, tail: seq<byte>)
    requires DecodeBody(tail).Some?
    ensures DecodeBody(Chunks(lines) + tail) ==
            Some((Texts(lines) + DecodeBody(tail).value.0, DecodeBody(tail).value.1))
    decreases |lines|
  {
    hide DecodeBody, Sent, Text;
    var body := DecodeBody(tail).value.0;
    if lines == [] {
      assert Chunks(lines) + tail == tail && Texts(lines) + body == body;
    } else {
      DecodeChunks(lines[1..], tail);
      DecodeSent(lines[0], Chunks(lines[1..]) + tail);
      assert Chunks(lines) + tail == Sent(lines[0]) + (Chunks(lines[1..]) + tail);
      assert Texts(lines) + body == Text(lines[0]) + (Texts(lines[1..]) + body);
    }
  }

  /** The reply decodes to the texts of the lines, in order, and ends exactly where the reply
      ends: no earlier chunk is empty. */
  lemma ReplyDecodes(lines: seq<seq<byte>>, rest: seq<byte>)
    ensures DecodeBody(Chunks(lines) + LAST_CHUNK + rest) == Some((Texts(lines), rest))
  {
    LastChunkDecodes(rest);
    hide DecodeBody, Chunks, Texts;
    DecodeChunks(lines, LAST_CHUNK + rest);
    assert Chunks(lines) + LAST_CHUNK + rest == Chunks(lines) + (LAST_CHUNK + rest);
    assert Texts(lines) + [] == Texts(lines);
  }

  lemma LastChunkDecodes(rest: seq<byte>)
    ensures DecodeBody(LAST_CHUNK + rest) == Some(([], rest))
  {
    TakeFrame([], true, rest);
    assert Frame([], true) == LAST_CHUNK;
  }

  /** The client gets the child's output unchanged if and only if no line of it holds a NUL. */
  lemma {:induction false} NothingLost(lines: seq<seq<byte>>)
    ensures Texts(lines) == Flatten(lines) <==> forall line | line in lines :: 0 !in line
    ensures |Texts(lines)| <= |Flatten(lines)|
    decreases |lines|
  {
    if lines == [] {
    } else {
      NothingLost(lines[1..]);
      var text, line := Text(lines[0]), lines[0];
      assert lines == [line] + lines[1..];
      if text != line {
        assert |text| < |line|;
      } else {
        assert (text + Texts(lines[1..]))[|text|..] == Texts(lines[1..]);
        assert (line + Flatten(lines[1..]))[|line|..] == Flatten(lines[1..]);
      }
    }
  }

  // ---------------------------------------------------------------------------------------------
  // The radio stream

  /** What a listener is sent for the chunks of successive passes, when every send is complete. */
  function RadioStream(chunks: seq<seq<byte>>): seq<byte> {
    if chunks == [] then [] else Frame(chunks[0], false) + RadioStream(chunks[1..])
  }

  lemma StreamCons(chunks: seq<seq<byte>>, tail: seq<byte>)
    requires chunks != []
    ensures RadioStream(chunks) + tail == Frame(chunks[0], false) + (RadioStream(chunks[1..]) + tail)
  {
  }

  /** Chunks that are not empty decode to their concatenation, in front of whatever follows. */
  lemma {:induction false} RadioDecodes(chunks: seq<seq<byte>>, tail: seq<byte>)
    requires DecodeBody(tail).Some? && [] !in chunks
    ensures DecodeBody(RadioStream(chunks) + tail) ==
            Some((Flatten(chunks) + DecodeBody(tail).value.0, DecodeBody(tail).value.1))
    decreases |chunks|
  {
    hide DecodeBody, Frame;
    var body := DecodeBody(tail).value.0;
    if chunks == [] {
      assert RadioStream(chunks) + tail == tail && Flatten(chunks) + body == body;
    } else {
      assert chunks[0] in chunks && forall c | c in chunks[1..] :: c in chunks;
      RadioDecodes(chunks[1..], tail);
      StreamCons(chunks, tail);
      DecodeData(chunks[0], false, RadioStream(chunks[1..]) + tail);
      assert Flatten(chunks) + body == chunks[0] + (Flatten(chunks[1..]) + body);
    }
  }

  /** An empty chunk is the last chunk of the coding: the decoder returns what came before it. */
  lemma RadioEndsAt(chunks: seq<seq<byte>>, i: nat, tail: seq<byte>)
    requires i < |chunks| && chunks[i] == [] && [] !in chunks[..i]
    ensures DecodeBody(RadioStream(chunks) + tail) ==
            Some((Flatten(chunks[..i]), RadioStream(chunks[i + 1..]) + tail))
  {
    var rest := RadioStream(chunks[i..]) + tail;
    hide RadioStream, Flatten;
    StreamSplit(chunks, i);
    StreamCons(chunks[i..], tail);
    assert chunks[i..][1..] == chunks[i + 1..];
    TakeFrame([], false, RadioStream(chunks[i + 1..]) + tail);
    assert DecodeBody(rest) == Some(([], RadioStream(chunks[i + 1..]) + tail));
    RadioDecodes(chunks[..i], rest);
    assert RadioStream(chunks) + tail == RadioStream(chunks[..i]) + rest;
    assert Flatten(chunks[..i]) + [] == Flatten(chunks[..i]);
  }

  lemma {:induction false} StreamSplit(chunks: seq<seq<byte>>, i: nat)
    requires i <= |chunks|
    ensures RadioStream(chunks) == RadioStream(chunks[..i]) + RadioStream(chunks[i..])
  {
    if i == 0 {
      assert chunks[0..] == chunks && chunks[..0] == [];
    } else {
      StreamSplit(chunks[1..], i - 1);
      assert chunks[..i][0] == chunks[0] && chunks[..i][1..] == chunks[1..][..i - 1];
      assert chunks[1..][i - 1..] == chunks[i..];
    }
  }

  /** The position of the first empty chunk. */
  function FirstEmpty(chunks: seq<seq<byte>>): (i: nat)
    requires [] in chunks
    ensures i < |chunks| && chunks[i] == [] && [] !in chunks[..i]
  {
    if chunks[0] == [] then 0 else 1 + FirstEmpty(chunks[1..])
  }

  lemma BodyTakesSomething(s: seq<byte>)
    requires DecodeBody(s).Some?
    ensures |DecodeBody(s).value.1| < |s|
    decreases |s|
  {
    if TakeChunk(s).value.0 != [] { BodyTakesSomething(TakeChunk(s).value.1); }
  }

  /** A listener that decodes by section 7.1 gets all chunks and is still reading behind them if and
      only if none of them is empty. */
  lemma RadioDecodesExactly(chunks: seq<seq<byte>>, tail: seq<byte>)
    requires DecodeBody(tail).Some?
    ensures DecodeBody(RadioStream(chunks) + tail) ==
              Some((Flatten(chunks) + DecodeBody(tail).value.0, DecodeBody(tail).value.1))
            <==> [] !in chunks
  {
    hide DecodeBody, RadioStream;
    BodyTakesSomething(tail);
    if [] in chunks {
      RadioEndsAt(chunks, FirstEmpty(chunks), tail);
    } else {
      RadioDecodes(chunks, tail);
    }
  }

  // ---------------------------------------------------------------------------------------------
  // Examples, octet by octet

  lemma Sizes()
    ensures Hex(26, true) == [49, 65] && Hex(26, false) == [49, 97] && Hex(4096, false) == [49, 48, 48, 48]
  {
    assert Hex(16, false) == [49, 48] && Hex(256, false) == [49, 48, 48];
  }

  /** A line of 26 octets, the last chunk, and the radio's chunks of 26 and of 4096 octets. */
  lemma Examples(data: seq<byte>)
    ensures LAST_CHUNK == [48, 13, 10, 13, 10]
    ensures |data| == 26 && 0 !in data ==> Sent(data) == [49, 65, 13, 10] + data + [13, 10]
    ensures |data| == 26 ==> RadioStream([data]) == [49, 97, 13, 10] + data + [13, 10]
    ensures |data| == 4096 ==> RadioStream([data]) == [49, 48, 48, 48, 13, 10] + data + [13, 10]
  {
    Sizes();
    hide Hex, Text;
    assert [data][1..] == [] && RadioStream([]) == [];
    assert RadioStream([data]) == Frame(data, false);
  }
}
