/**
 * WebSocket framing in the bridge: the loop that takes client frames out of one receive buffer and
 * unmasks them in place, and the builder of server frames, against sections 5.2 and 5.3 of
 * RFC 6455.
 */
module WebSocket {
  import opened Common

  const SIZE_T: nat := 0x1_0000_0000_0000_0000

  // ---------------------------------------------------------------------------------------------
  // RFC 6455

  /** Bitwise exclusive or of the n low bits. */
  function XorBits(a: nat, b: nat, n: nat): nat {
    if n == 0 then 0 else (a + b) % 2 + 2 * XorBits(a / 2, b / 2, n - 1)
  }

  lemma XorBound(a: nat, b: nat)
    ensures XorBits(a, b, 8) < 256
  {
    XorBoundBits(a, b, 8);
  }

  function Pow2(n: nat): (p: nat)
    ensures p > 0
  {
    if n == 0 then 1 else 2 * Pow2(n - 1)
  }

  lemma {:induction false} XorBoundBits(a: nat, b: nat, n: nat)
    ensures XorBits(a, b, n) < Pow2(n)
  {
    if n == 0 {
    } else {
      XorBoundBits(a / 2, b / 2, n - 1);
    }
  }

  function Xor(a: byte, b: byte): byte {
    XorBound(a, b);
    XorBits(a, b, 8)
  }

  lemma BitTwice(a: nat, b: nat, r: nat)
    ensures var x := (a + b) % 2 + 2 * r; (x + b) % 2 == a % 2 && x / 2 == r
  {
  }

  lemma {:induction false} XorInvolution(a: nat, b: nat, n: nat)
    requires a < Pow2(n)
    ensures XorBits(XorBits(a, b, n), b, n) == a
  {
    if n == 0 {
    } else {
      XorInvolution(a / 2, b / 2, n - 1);
      BitTwice(a, b, XorBits(a / 2, b / 2, n - 1));
    }
  }

  lemma XorTwice(a: byte, b: byte)
    ensures Xor(Xor(a, b), b) == a
  {
    assert Pow2(8) == 256;
    XorInvolution(a, b, 8);
  }

  /** Bit i of x. */
  function Bit(x: nat, i: nat): nat { x / Pow2(i) % 2 }

  lemma BitAbove(x: nat, i: nat)
    ensures Bit(x, i + 1) == Bit(x / 2, i)
  {
    HalfFirst(x, Pow2(i));
  }

  lemma HalfFirst(x: nat, p: nat)
    requires p > 0
    ensures x / (2 * p) == x / 2 / p
  {
    var q, r := x / 2 / p, x / 2 % p;
    assert x == 2 * (p * q + r) + x % 2 == q * (2 * p) + (2 * r + x % 2);
    QuotientIs(2 * p, q, 2 * r + x % 2);
  }

  lemma Multiple(d: int, e: int)
    requires d > 0 && e != 0
    ensures d * e >= d || d * e <= 0 - d
  {
  }

  lemma QuotientIs(d: nat, q: nat, r: nat)
    requires r < d
    ensures (q * d + r) / d == q
  {
    var x := q * d + r;
    var e: int := x / d - q;
    assert x == d * (x / d) + x % d;
    assert d * e == r - x % d;
    if e != 0 { Multiple(d, e); }
  }

  lemma XorParts(a: nat, b: nat, n: nat)
    requires n > 0
    ensures XorBits(a, b, n) / 2 == XorBits(a / 2, b / 2, n - 1)
    ensures XorBits(a, b, n) % 2 == 1 <==> a % 2 != b % 2
  {
  }

  lemma BitLowest(x: nat)
    ensures Bit(x, 0) == x % 2
  {
    assert Pow2(0) == 1 && x / 1 == x;
  }

  /** Each bit of the result is set exactly where the operands differ. */
  lemma {:induction false} XorBit(a: nat, b: nat, n: nat, i: nat)
    requires i < n
    ensures Bit(XorBits(a, b, n), i) == 1 <==> Bit(a, i) != Bit(b, i)
  {
    hide Bit, XorBits, Pow2;
    XorParts(a, b, n);
    if i == 0 {
      BitLowest(a);
      BitLowest(b);
      BitLowest(XorBits(a, b, n));
    } else {
      XorBit(a / 2, b / 2, n - 1, i - 1);
      BitAbove(a, i - 1);
      BitAbove(b, i - 1);
      BitAbove(XorBits(a, b, n), i - 1);
    }
  }

  /** Section 5.3: masking and unmasking are the same operation. */
  function Masked(p: seq<byte>, mask: seq<byte>): (q: seq<byte>)
    requires |mask| == 4
    ensures |q| == |p|
  {
    seq(|p|, i requires 0 <= i < |p| => Xor(p[i], mask[i % 4]))
  }

  /** Octet i is combined bit by bit with octet i mod 4 of the key. */
  lemma MaskedBits(p: seq<byte>, mask: seq<byte>, i: nat, k: nat)
    requires |mask| == 4 && i < |p| && k < 8
    ensures Bit(Masked(p, mask)[i], k) == 1 <==> Bit(p[i], k) != Bit(mask[i % 4], k)
  {
    XorBit(p[i], mask[i % 4], 8, k);
  }

  lemma MaskedTwice(p: seq<byte>, mask: seq<byte>)
    requires |mask| == 4
    ensures Masked(Masked(p, mask), mask) == p
  {
    forall i | 0 <= i < |p| ensures Masked(Masked(p, mask), mask)[i] == p[i] {
      XorTwice(p[i], mask[i % 4]);
    }
  }

  function BigEndian(x: nat, n: nat): (s: seq<byte>)
    ensures |s| == n
  {
    if n == 0 then [] else BigEndian(x / 256, n - 1) + [x % 256]
  }

  function FromBigEndian(s: seq<byte>): nat {
    if s == [] then 0 else FromBigEndian(s[..|s| - 1]) * 256 + s[|s| - 1]
  }

  function Pow256(n: nat): (p: nat)
    ensures p > 0
  {
    if n == 0 then 1 else 256 * Pow256(n - 1)
  }

  /** Octet i from the right has the weight 256^i. */
  lemma {:induction false} BigEndianAt(x: nat, n: nat, i: nat)
    requires i < n
    ensures BigEndian(x, n)[n - 1 - i] == x / Pow256(i) % 256
  {
    if i == 0 {
      assert x / 1 == x;
    } else {
      BigEndianAt(x / 256, n - 1, i - 1);
      OctetFirst(x, Pow256(i - 1));
    }
  }

  lemma OctetFirst(x: nat, p: nat)
    requires p > 0
    ensures x / (256 * p) == x / 256 / p
  {
    var q, r := x / 256 / p, x / 256 % p;
    assert x == 256 * (p * q + r) + x % 256 == q * (256 * p) + (256 * r + x % 256);
    QuotientIs(256 * p, q, 256 * r + x % 256);
  }

  lemma {:induction false} BigEndianBack(x: nat, n: nat)
    requires x < Pow256(n)
    ensures FromBigEndian(BigEndian(x, n)) == x
  {
    if n == 0 {
    } else {
      BigEndianBack(x / 256, n - 1);
      assert BigEndian(x, n)[..n - 1] == BigEndian(x / 256, n - 1);
    }
  }

  lemma {:induction false} FromBigEndianBack(s: seq<byte>)
    ensures FromBigEndian(s) < Pow256(|s|) && BigEndian(FromBigEndian(s), |s|) == s
  {
    if s == [] {
    } else {
      var r := s[..|s| - 1];
      FromBigEndianBack(r);
      assert FromBigEndian(s) / 256 == FromBigEndian(r) && FromBigEndian(s) % 256 == s[|s| - 1];
      assert s == r + [s[|s| - 1]];
    }
  }

  /** The three ways section 5.2 gives to write a payload length. */
  datatype Form = Short | Medium | Long

  /** A frame: first octet (FIN, RSV, opcode), masking key if any, length form, payload. */
  datatype Frame = Frame(first: byte, key: Option<seq<byte>>, form: Form, payload: seq<byte>) {
    predicate Valid() {
      && (key.Some? ==> |key.value| == 4)
      && match form
         case Short => |payload| <= 125
         case Medium => |payload| < 0x1_0000
         case Long => |payload| < 0x8000_0000_0000_0000
    }

    function LengthField(): nat {
      match form case Short => |payload| case Medium => 126 case Long => 127
    }

    function Extended(): seq<byte> {
      match form
      case Short => []
      case Medium => BigEndian(|payload|, 2)
      case Long => BigEndian(|payload|, 8)
    }

    function Head(): (s: seq<byte>)
      requires Valid()
      ensures |s| >= 2
    {
      [first, LengthField() + (if key.Some? then 128 else 0)] + Extended()
    }

    function Body(): seq<byte>
      requires Valid()
    {
      if key.Some? then key.value + Masked(payload, key.value) else payload
    }

    function Encode(): (s: seq<byte>)
      requires Valid()
      ensures |s| >= 2
    {
      Head() + Body()
    }
  }

  predicate AllValid(fs: seq<Frame>) {
    forall i | 0 <= i < |fs| :: fs[i].Valid()
  }

  function EncodeAll(fs: seq<Frame>): seq<byte>
    requires AllValid(fs)
  {
    if fs == [] then [] else fs[0].Encode() + EncodeAll(fs[1..])
  }

  function Payloads(fs: seq<Frame>): seq<seq<byte>> {
    seq(|fs|, i requires 0 <= i < |fs| => fs[i].payload)
  }

  lemma TwoOctets(n: nat)
    ensures n < 0x1_0000 <==> FromBigEndian(BigEndian(n, 2)) == n
  {
    assert Pow256(2) == 0x1_0000;
    if n < 0x1_0000 { BigEndianBack(n, 2); } else { FromBigEndianBack(BigEndian(n, 2)); }
  }

  lemma EightOctets(n: nat)
    requires n < SIZE_T
    ensures n < 0x8000_0000_0000_0000 <==> BigEndian(n, 8)[0] < 128
  {
    assert Pow256(7) == 0x100_0000_0000_0000;
    BigEndianAt(n, 8, 7);
  }

  /** Each form holds the lengths that fit its field: two octets, or eight with the top bit clear. */
  lemma ValidLengths(f: Frame)
    requires f.key.None? && |f.payload| < SIZE_T
    ensures f.form.Short? ==> (f.Valid() <==> |f.payload| < 126)
    ensures f.form.Medium? ==> (f.Valid() <==> FromBigEndian(f.Extended()) == |f.payload|)
    ensures f.form.Long? ==> (f.Valid() <==> f.Extended()[0] < 128)
  {
    TwoOctets(|f.payload|);
    EightOctets(|f.payload|);
    hide BigEndian, FromBigEndian;
  }

  const HELLO: seq<byte> := [0x48, 0x65, 0x6c, 0x6c, 0x6f]
  const HELLO_KEY: seq<byte> := [0x37, 0xfa, 0x21, 0x3d]

  lemma PublishedLengths()
    ensures BigEndian(256, 2) == [1, 0] && BigEndian(0x1_0000, 8) == [0, 0, 0, 0, 0, 1, 0, 0]
  {
  }

  /** The frames of section 5.7, with each form of the length. */
  lemma PublishedFrames(data: seq<byte>)
    ensures Frame(0x81, None, Short, HELLO).Encode() == [0x81, 0x05] + HELLO
    ensures Frame(0x81, Some(HELLO_KEY), Short, HELLO).Encode() == [0x81, 0x85] + HELLO_KEY + Masked(HELLO, HELLO_KEY)
    ensures |data| == 256 ==> Frame(0x82, None, Medium, data).Encode() == [0x82, 0x7e, 0x01, 0x00] + data
    ensures |data| == 0x1_0000 ==>
              Frame(0x82, None, Long, data).Encode() == [0x82, 0x7f, 0, 0, 0, 0, 0, 1, 0, 0] + data
  {
    PublishedLengths();
    hide Masked, BigEndian;
  }

  // ---------------------------------------------------------------------------------------------
  // The decoding loop

  function HeaderSize(field: nat): nat {
    if field == 126 then 4 else if field == 127 then 10 else 2
  }

  /** Header size, mask bit and payload length, when the header is complete. */
  function ReadHeader(b: seq<byte>): (h: Option<(nat, bool, nat)>)
    ensures h.Some? ==> 2 <= h.value.0 <= |b| && h.value.2 < SIZE_T
  {
    if |b| < 2 then None
    else
      var field := b[1] % 128;
      var size := HeaderSize(field);
      if |b| < size then None
      else
        FromBigEndianBack(b[2..size]);
        assert Pow256(2) == 0x1_0000 && Pow256(8) == SIZE_T && Pow256(0) == 1;
        Some((size, b[1] >= 128, if size == 2 then field else FromBigEndian(b[2..size])))
  }

  /** What one buffer gives: the payloads sent on, and whether the loop ended at a header whose
      length makes the 64-bit size computation wrap around, so that the payload it would then
      touch is not in the buffer. */
  datatype Result = Result(payloads: seq<seq<byte>>, overrun: bool)

  function Unmask(b: seq<byte>, size: nat, masked: bool, length: nat): (p: seq<byte>)
    requires size + (if masked then 4 else 0) + length <= |b|
    ensures |p| == length
  {
    if masked then Masked(b[size + 4..size + 4 + length], b[size..size + 4]) else b[size..size + length]
  }

  /** One iteration on the bytes that are left: nothing complete, a size that wrapped, or a payload
      and the size of its frame. */
  datatype Next = Stop | Wrapped | Deliver(payload: seq<byte>, end: nat)

  function Look(b: seq<byte>): (s: Next)
    ensures s.Deliver? ==> 2 <= s.end <= |b|
  {
    match ReadHeader(b)
    case None => Stop
    case Some((size, masked, length)) =>
      var end := size + (if masked then 4 else 0) + length;
      if |b| < end % SIZE_T then Stop
      else if end >= SIZE_T then Wrapped
      else Deliver(Unmask(b, size, masked, length), end)
  }

  /** The loop of `forward_client_to_target` on the bytes from `processed` on. */
  function Forward(b: seq<byte>): (r: Result)
    decreases |b|
  {
    match Look(b)
    case Stop => Result([], false)
    case Wrapped => Result([], true)
    case Deliver(payload, end) =>
      var rest := Forward(b[end..]);
      Result([payload] + rest.payloads, rest.overrun)
  }

  // ---------------------------------------------------------------------------------------------
  // The loop against the RFC

  /** A trailing incomplete frame: a proper prefix of some frame, possibly empty. */
  ghost predicate Incomplete(b: seq<byte>) {
    exists f: Frame :: f.Valid() && b < f.Encode()
  }

  function MaskSize(f: Frame): nat { if f.key.Some? then 4 else 0 }

  /** The header of a frame is read back from any bytes that agree with the frame as far as both
      go. */
  lemma HeaderBack(f: Frame, b: seq<byte>)
    requires f.Valid() && (b <= f.Encode() || f.Encode() <= b)
    ensures var size := HeaderSize(f.LengthField());
            && |f.Encode()| == size + MaskSize(f) + |f.payload|
            && ReadHeader(b) == if |b| < size then None else Some((size, f.key.Some?, |f.payload|))
  {
    hide Masked, BigEndian, FromBigEndian;
    var e, size := f.Encode(), HeaderSize(f.LengthField());
    assert |f.Head()| == size && |e| == size + MaskSize(f) + |f.payload|;
    if |b| >= size {
      HeadIn(f, b);
      hide Frame.Encode, Frame.Head, Frame.Body;
      LengthBack(f);
    }
  }

  /** The first octets of bytes that agree with a frame are its header. */
  lemma HeadIn(f: Frame, b: seq<byte>)
    requires f.Valid() && (b <= f.Encode() || f.Encode() <= b) && |b| >= |f.Head()|
    ensures b[1] == f.LengthField() + (if f.key.Some? then 128 else 0) && b[2..|f.Head()|] == f.Extended()
  {
    hide Frame.Body, Frame.Extended;
    var e := f.Encode();
    assert b[..|f.Head()|] == e[..|f.Head()|] == f.Head();
    assert b[2..|f.Head()|] == b[..|f.Head()|][2..];
  }

  /** The length is read back from its field. */
  lemma LengthBack(f: Frame)
    requires f.Valid()
    ensures !f.form.Short? ==> FromBigEndian(f.Extended()) == |f.payload|
  {
    assert Pow256(2) == 0x1_0000 && Pow256(8) == SIZE_T;
    match f.form
    case Short =>
    case Medium => BigEndianBack(|f.payload|, 2);
    case Long => BigEndianBack(|f.payload|, 8);
  }

  lemma EncodeParts(f: Frame)
    requires f.Valid()
    ensures var e, size := f.Encode(), HeaderSize(f.LengthField());
            && |e| == size + MaskSize(f) + |f.payload|
            && (f.key.Some? ==> e[size..size + 4] == f.key.value && e[size + 4..] == Masked(f.payload, f.key.value))
            && (f.key.None? ==> e[size..] == f.payload)
  {
  }

  lemma UnmaskBack(f: Frame, b: seq<byte>)
    requires f.Valid() && f.Encode() <= b
    ensures var size := HeaderSize(f.LengthField());
            size + MaskSize(f) + |f.payload| <= |b| && Unmask(b, size, f.key.Some?, |f.payload|) == f.payload
  {
    hide Masked, Frame.Encode, BigEndian;
    EncodeParts(f);
    var e, size := f.Encode(), HeaderSize(f.LengthField());
    assert b[..|e|] == e;
    if f.key.Some? {
      assert b[size..size + 4] == e[size..size + 4];
      assert b[size + 4..size + 4 + |f.payload|] == e[size + 4..];
      MaskedTwice(f.payload, f.key.value);
    } else {
      assert b[size..size + |f.payload|] == e[size..];
    }
  }

  lemma FrameSize(f: Frame)
    requires f.Valid()
    ensures HeaderSize(f.LengthField()) + MaskSize(f) + |f.payload| == |f.Encode()| < SIZE_T
  {
  }

  lemma LookFrame(f: Frame, b: seq<byte>)
    requires f.Valid()
    ensures f.Encode() <= b ==> Look(b) == Deliver(f.payload, |f.Encode()|)
    ensures b < f.Encode() ==> Look(b) == Stop
  {
    hide Masked, BigEndian, FromBigEndian, Unmask, ReadHeader, Frame.Encode;
    FrameSize(f);
    if f.Encode() <= b {
      HeaderBack(f, b);
      UnmaskBack(f, b);
    } else if b < f.Encode() {
      HeaderBack(f, b);
    }
  }

  lemma ForwardCons(b: seq<byte>)
    requires Look(b).Deliver?
    ensures var rest := Forward(b[Look(b).end..]);
            Forward(b) == Result([Look(b).payload] + rest.payloads, rest.overrun)
  {
  }

  lemma ForwardStop(b: seq<byte>)
    ensures !Look(b).Deliver? ==> Forward(b) == Result([], Look(b).Wrapped?)
    ensures b == [] ==> Look(b) == Stop
  {
  }

  lemma EncodeAllNil()
    ensures EncodeAll([]) == [] && Payloads([]) == []
  {
  }

  lemma EncodeAllCons(f: Frame, gs: seq<Frame>, e: seq<byte>)
    requires f.Valid() && AllValid(gs) && f.Encode() == e
    ensures AllValid([f] + gs) && EncodeAll([f] + gs) == e + EncodeAll(gs)
    ensures Payloads([f] + gs) == [f.payload] + Payloads(gs)
  {
    assert ([f] + gs)[1..] == gs;
  }

  /** For every list of valid frames, masked or not and in any of the three length forms, followed
      by an incomplete frame: the loop sends on exactly the payloads, unmasked and in order. */
  lemma {:induction false} ForwardsPayloads(fs: seq<Frame>, tail: seq<byte>)
    requires AllValid(fs) && Incomplete(tail)
    ensures Forward(EncodeAll(fs) + tail) == Result(Payloads(fs), false)
  {
    hide Forward, Look, EncodeAll, Payloads, Incomplete;
    EncodeAllNil();
    if fs == [] {
      assert EncodeAll(fs) + tail == tail;
      IncompleteIgnored(tail);
    } else {
      ForwardsFirst(fs[0], fs[1..], tail);
      assert fs == [fs[0]] + fs[1..];
      ForwardsPayloads(fs[1..], tail);
    }
  }

  lemma IncompleteIgnored(tail: seq<byte>)
    requires Incomplete(tail)
    ensures Forward(tail) == Result([], false)
  {
    hide Forward, Look;
    var f: Frame :| f.Valid() && tail < f.Encode();
    LookFrame(f, tail);
    ForwardStop(tail);
  }

  lemma ForwardsFirst(f: Frame, gs: seq<Frame>, tail: seq<byte>)
    requires f.Valid() && AllValid(gs)
    ensures AllValid([f] + gs) && Payloads([f] + gs) == [f.payload] + Payloads(gs)
    ensures var rest := Forward(EncodeAll(gs) + tail);
            Forward(EncodeAll([f] + gs) + tail) == Result([f.payload] + rest.payloads, rest.overrun)
  {
    hide Forward, Look, EncodeAll, AllValid, Payloads, Frame.Encode;
    var e := f.Encode();
    var rest := EncodeAll(gs) + tail;
    EncodeAllCons(f, gs, e);
    var b := EncodeAll([f] + gs) + tail;
    assert b == e + rest && b[|e|..] == rest;
    LookFrame(f, b);
    ForwardCons(b);
  }

  /** The frame in front of the bytes, once the loop has found a complete one. */
  function FrameAt(b: seq<byte>): (f: Frame)
    requires Look(b).Deliver?
  {
    var (size, masked, length) := ReadHeader(b).value;
    Frame(b[0],
          if masked then Some(b[size..size + 4]) else None,
          if size == 2 then Short else if size == 4 then Medium else Long,
          Look(b).payload)
  }

  lemma HeadAt(b: seq<byte>)
    requires Look(b).Deliver? && |b| < 0x8000_0000_0000_0000
    ensures FrameAt(b).Valid() && FrameAt(b).Head() == b[..ReadHeader(b).value.0]
  {
    hide Masked, Unmask;
    var f := FrameAt(b);
    var (size, masked, length) := ReadHeader(b).value;
    assert Pow256(2) == 0x1_0000;
    FromBigEndianBack(b[2..size]);
    assert f.Extended() == b[2..size];
    assert b[..size] == [b[0], b[1]] + b[2..size];
  }

  lemma SliceJoin(b: seq<byte>, i: nat, j: nat, k: nat)
    requires i <= j <= k <= |b|
    ensures b[i..k] == b[i..j] + b[j..k]
  {
  }

  lemma BodyAt(b: seq<byte>)
    requires Look(b).Deliver? && FrameAt(b).Valid()
    ensures FrameAt(b).Body() == b[ReadHeader(b).value.0..Look(b).end]
  {
    var (size, masked, length) := ReadHeader(b).value;
    var end, f := Look(b).end, FrameAt(b);
    assert f.payload == Unmask(b, size, masked, length) && end == size + (if masked then 4 else 0) + length;
    assert f.key == if masked then Some(b[size..size + 4]) else None;
    hide ReadHeader, Look, FrameAt, Frame.Valid;
    if masked {
      MaskedTwice(b[size + 4..end], b[size..size + 4]);
      SliceJoin(b, size, size + 4, end);
    }
  }

  lemma FrameAtEncodes(b: seq<byte>)
    requires Look(b).Deliver? && |b| < 0x8000_0000_0000_0000
    ensures FrameAt(b).Valid() && FrameAt(b).Encode() == b[..Look(b).end]
  {
    HeadAt(b);
    BodyAt(b);
    assert b[..Look(b).end] == b[..ReadHeader(b).value.0] + b[ReadHeader(b).value.0..Look(b).end];
  }

  /** Conversely, whatever a buffer holds, what the loop sends on are the payloads of valid frames
      that make up the buffer from its start, up to a rest in which it finds no complete frame. */
  lemma {:induction false} ForwardedAreFrames(b: seq<byte>) returns (fs: seq<Frame>, rest: seq<byte>)
    requires |b| < 0x8000_0000_0000_0000
    ensures AllValid(fs) && b == EncodeAll(fs) + rest
    ensures !Look(rest).Deliver? && Forward(b) == Result(Payloads(fs), Look(rest).Wrapped?)
    decreases |b|
  {
    hide Forward, Look, EncodeAll, Payloads, FrameAt;
    if Look(b).Deliver? {
      FrameAtEncodes(b);
      ForwardCons(b);
      var end := Look(b).end;
      var gs;
      gs, rest := ForwardedAreFrames(b[end..]);
      EncodeAllCons(FrameAt(b), gs, b[..end]);
      FrameAtPayload(b);
      fs := [FrameAt(b)] + gs;
      assert b == b[..end] + b[end..];
    } else {
      fs, rest := [], b;
      EncodeAllNil();
      ForwardStop(b);
    }
  }

  lemma FrameAtPayload(b: seq<byte>)
    requires Look(b).Deliver?
    ensures FrameAt(b).payload == Look(b).payload
  {
  }

  /** The size computation wraps only at a header whose 64-bit length has its top bit set, which
      section 5.2 forbids. */
  lemma WrapNeedsTopBit(b: seq<byte>)
    requires Look(b).Wrapped?
    ensures |b| >= 10 && b[1] % 128 == 127 && FromBigEndian(b[2..10]) >= SIZE_T - 14 && b[2] >= 128
  {
    var (size, masked, length) := ReadHeader(b).value;
    FromBigEndianBack(b[2..size]);
    assert Pow256(2) == 0x1_0000 && length >= SIZE_T - 14;
    TopOctet(b[2..10]);
  }

  lemma {:induction false} LeadingOctet(s: seq<byte>)
    requires s != []
    ensures FromBigEndian(s) < (s[0] + 1) * Pow256(|s| - 1)
  {
    if |s| > 1 {
      LeadingOctet(s[..|s| - 1]);
      var top: int := s[0];
      var h, q, p := FromBigEndian(s[..|s| - 1]), top + 1, Pow256(|s| - 2);
      assert h + 1 <= q * p;
      assert (h + 1) * 256 <= q * p * 256 == q * (256 * p);
    } else {
      assert s[..0] == [] && Pow256(0) == 1;
    }
  }

  lemma TopOctet(s: seq<byte>)
    requires |s| == 8 && FromBigEndian(s) >= SIZE_T - 14
    ensures s[0] >= 128
  {
    LeadingOctet(s);
    assert Pow256(7) == 0x100_0000_0000_0000;
  }
}
