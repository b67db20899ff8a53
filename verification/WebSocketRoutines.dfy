/**
 * The bridge's two framing routines as they are written: the receive loop walks one buffer with an
 * index and unmasks payloads in place; the builder lays out header and payload.
 */
module WebSocketRoutines {
  import opened Common
  import opened WebSocket

  /** The unmasking loop, in place. */
  method UnmaskInPlace(buf: array<byte>, at: nat, length: nat)
    requires at + 4 + length <= buf.Length
    modifies buf
    ensures buf[at + 4..at + 4 + length] == Masked(old(buf[at + 4..at + 4 + length]), old(buf[at..at + 4]))
    ensures forall k | 0 <= k < buf.Length && !(at + 4 <= k < at + 4 + length) :: buf[k] == old(buf[k])
  {
    for i := 0 to length
      invariant forall k | 0 <= k < i :: buf[at + 4 + k] == Xor(old(buf[at + 4 + k]), old(buf[at + k % 4]))
      invariant forall k | at + 4 + i <= k < buf.Length :: buf[k] == old(buf[k])
      invariant forall k | 0 <= k < at + 4 :: buf[k] == old(buf[k])
    {
      buf[at + 4 + i] := Xor(buf[at + 4 + i], buf[at + i % 4]);
    }
  }

  /** The eight-octet length: `full = (full << 8) | frame[2 + k]`. */
  method ReadLength(buf: array<byte>, at: nat, count: nat) returns (length: nat)
    requires at + count <= buf.Length
    ensures length == FromBigEndian(buf[at..at + count])
  {
    length := 0;
    assert buf[at..at] == [];
    for k := 0 to count
      invariant length == FromBigEndian(buf[at..at + k])
    {
      assert buf[at..at + k + 1][..k] == buf[at..at + k];
      length := length * 256 + buf[at + k];
    }
  }

  /** The header of the frame at `at`; None when fewer octets than the header has are left. */
  method ReadHeaderAt(buf: array<byte>, at: nat, n: nat) returns (h: Option<(nat, bool, nat)>)
    requires at <= n <= buf.Length
    ensures h == ReadHeader(buf[at..n])
  {
    ghost var b := buf[at..n];
    if n - at < 2 { return None; }
    var payloadLen := buf[at + 1] % 128;
    var size := 2;
    if payloadLen == 126 { size := 4; } else if payloadLen == 127 { size := 10; }
    if n - at < size { return None; }
    var full: nat := payloadLen;
    if size != 2 {
      full := ReadLength(buf, at + 2, size - 2);
      assert buf[at + 2..at + size] == b[2..size];
    }
    h := Some((size, buf[at + 1] >= 128, full));
  }

  /** `forward_client_to_target` after the `recv` of n octets. */
  method ForwardFrames(buf: array<byte>, n: nat) returns (sent: seq<seq<byte>>, overrun: bool)
    requires n <= buf.Length
    modifies buf
    ensures Result(sent, overrun) == Forward(old(buf[..n]))
    ensures forall k | n <= k < buf.Length :: buf[k] == old(buf[k])
  {
    hide Look, Forward;
    var processed := 0;
    sent, overrun := [], false;
    assert buf[0..n] == buf[..n];
    while processed < n
      invariant processed <= n && forall k | n <= k < buf.Length :: buf[k] == old(buf[k])
      invariant var rest := Forward(buf[processed..n]);
                Forward(old(buf[..n])) == Result(sent + rest.payloads, rest.overrun)
    {
      ghost var b := buf[processed..n];
      var payload, total, wrapped := ForwardOne(buf, processed, n);
      ForwardStop(b);
      if wrapped { return sent, true; }
      if total == 0 { return; }
      ForwardCons(b);
      assert buf[processed + total..n] == b[total..];
      ghost var rest := Forward(b[total..]).payloads;
      assert sent + ([payload] + rest) == (sent + [payload]) + rest;
      sent, processed := sent + [payload], processed + total;
    }
    assert buf[processed..n] == [];
    ForwardStop([]);
  }

  /** One iteration: a total of 0 stands for `break`. */
  method ForwardOne(buf: array<byte>, at: nat, n: nat) returns (payload: seq<byte>, total: nat, wrapped: bool)
    requires at <= n <= buf.Length
    modifies buf
    ensures Look(old(buf[at..n])) ==
      if wrapped then Wrapped else if total == 0 then Stop else Deliver(payload, total)
    ensures at + total <= n && forall k | at + total <= k < buf.Length :: buf[k] == old(buf[k])
  {
    ghost var b := buf[at..n];
    var h := ReadHeaderAt(buf, at, n);
    if h.None? { return [], 0, false; }
    var (size, masked, length) := h.value;
    var end := size + (if masked then 4 else 0) + length;
    if n - at < end % SIZE_T { return [], 0, false; }
    if end >= SIZE_T { return [], 0, true; }
    payload := TakePayload(buf, at, size, masked, length, end);
    UnmaskPrefix(b, end, size, masked, length);
    assert b[..end] == old(buf[at..at + end]);
    return payload, end, false;
  }

  lemma UnmaskPrefix(b: seq<byte>, end: nat, size: nat, masked: bool, length: nat)
    requires end == size + (if masked then 4 else 0) + length <= |b|
    ensures Unmask(b[..end], size, masked, length) == Unmask(b, size, masked, length)
  {
  }

  lemma SliceOf(buf: array<byte>, at: nat, end: nat, lo: nat, hi: nat)
    requires at + end <= buf.Length && lo <= hi <= end
    ensures buf[at..at + end][lo..hi] == buf[at + lo..at + hi]
  {
    var b, c := buf[at..at + end], buf[at + lo..at + hi];
    forall k | 0 <= k < hi - lo ensures b[lo..hi][k] == c[k] {
      assert b[lo + k] == buf[at + (lo + k)];
      assert c[k] == buf[(at + lo) + k];
    }
  }

  /** The payload of a complete frame, unmasked where it lies. */
  method TakePayload(buf: array<byte>, at: nat, size: nat, masked: bool, length: nat, end: nat)
    returns (payload: seq<byte>)
    requires end == size + (if masked then 4 else 0) + length && at + end <= buf.Length
    modifies buf
    ensures payload == Unmask(old(buf[at..at + end]), size, masked, length)
    ensures forall k | at + end <= k < buf.Length :: buf[k] == old(buf[k])
  {
    ghost var b := buf[at..at + end];
    if masked {
      SliceOf(buf, at, end, size, size + 4);
      SliceOf(buf, at, end, size + 4, end);
      assert b[size + 4..end] == buf[at + size + 4..at + size + 4 + length];
      UnmaskInPlace(buf, at + size, length);
      payload := buf[at + size + 4..at + end];
    } else {
      payload := buf[at + size..at + end];
      assert b[size..end] == payload;
    }
  }

  /** `forward_target_to_client` after the `recv` of 1 to `sizeof(buf) - 10` octets. */
  method BuildFrame(data: seq<byte>) returns (frame: seq<byte>)
    requires 1 <= |data| <= 8182
    ensures ServerFrame(data).Valid() && frame == ServerFrame(data).Encode()
    ensures |frame| <= 8192
  {
    var n := |data|;
    var header: seq<byte>;
    if n <= 125 {
      header := [0x81, n];
    } else {
      header := [0x81, 126, (n / 256) % 256, n % 256];
      assert BigEndian(n / 256, 1) == BigEndian(n / 256 / 256, 0) + [(n / 256) % 256];
      assert BigEndian(n, 2) == BigEndian(n / 256, 1) + [n % 256];
    }
    frame := header + data;
  }

  /** An unmasked final text frame in the shortest length form that holds the payload. */
  function ServerFrame(data: seq<byte>): Frame {
    Frame(0x81, None, if |data| <= 125 then Short else if |data| < 0x1_0000 then Medium else Long, data)
  }

  /** Section 5.2 demands the minimal number of octets for the length: no shorter form is valid. */
  lemma ServerFrameMinimal(data: seq<byte>, f: Frame)
    requires f.Valid() && f.payload == data && |data| < 0x8000_0000_0000_0000
    ensures ServerFrame(data).Valid()
    ensures |ServerFrame(data).Extended()| <= |f.Extended()|
  {
  }

  /** The frame built for "Hello" is the one of section 5.7; 256 bytes get the medium form. */
  lemma ServerFrameExamples(data: seq<byte>)
    ensures ServerFrame(HELLO).Valid() && ServerFrame(HELLO).Encode() == [0x81, 0x05, 0x48, 0x65, 0x6c, 0x6c, 0x6f]
    ensures |data| == 256 ==>
              ServerFrame(data).Valid() && ServerFrame(data).Encode() == [0x81, 0x7e, 0x01, 0x00] + data
  {
    PublishedLengths();
    hide BigEndian;
  }

  /** A built frame parses back to the bytes it was built from, also in front of further frames. */
  lemma ServerFrameBack(data: seq<byte>, rest: seq<byte>)
    requires 1 <= |data| <= 8182
    ensures ServerFrame(data).Valid()
    ensures var b := ServerFrame(data).Encode() + rest;
            Forward(b) == Result([data] + Forward(rest).payloads, Forward(rest).overrun)
  {
    var f := ServerFrame(data);
    LookFrame(f, f.Encode() + rest);
    assert (f.Encode() + rest)[|f.Encode()|..] == rest;
  }
}
