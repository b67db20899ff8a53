/**
 * Byte ranges: what `serve_static_file` of either server declares in Content-Length and what it
 * then sends.  The HTTPS loop runs to the end of the file; the plain HTTP loop counts down from
 * the declared length, which it holds in an unsigned 64-bit variable.
 */
module RangeBody {
  import opened Common
  import T = TlsStream

  const BUFFER_SIZE: nat := 4096
  const SIZE_T: int := 0x1_0000_0000_0000_0000

  /** What the two `sscanf` calls make of the Range header: no header, neither pattern, only the
      start, or both bounds.  The numbers are signed. */
  datatype Range = NoRange | Garbled | From(start: int) | Between(start: int, end: int)

  function First(r: Range): int {
    match r
    case From(s) => s
    case Between(s, _) => s
    case _ => 0
  }

  function Last(r: Range, size: nat): int {
    if r.Between? then r.end else size - 1
  }

  /** The declared Content-Length. */
  function Declared(r: Range, size: nat): int {
    Last(r, size) - First(r) + 1
  }

  /** Where the first `fread` starts: `fseek` refuses a negative offset and leaves the position at
      0; a position past the end reads nothing. */
  function Seek(r: Range, size: nat): (p: nat)
    ensures p <= size
  {
    if First(r) < 0 then 0 else Min(First(r), size)
  }

  /** `(size_t) content_length`. */
  function AsSizeT(n: int): (m: nat)
    requires -SIZE_T <= n < SIZE_T
    ensures n >= 0 ==> m == n
    ensures n < 0 ==> m == n + SIZE_T && (n == -1 ==> m == 0xffff_ffff_ffff_ffff)
  {
    if n >= 0 then n else n + SIZE_T
  }

  /** The body of an undisturbed HTTPS transfer (see `TlsStream.StaticTransfer`). */
  function HttpsBody(data: seq<byte>, r: Range): seq<byte> {
    data[Seek(r, |data|)..]
  }

  /** The body of an undisturbed plain HTTP transfer (see `SendBody`). */
  function HttpBody(data: seq<byte>, r: Range): seq<byte>
    requires -SIZE_T <= Declared(r, |data|) < SIZE_T
  {
    var rest := data[Seek(r, |data|)..];
    rest[..Min(AsSizeT(Declared(r, |data|)), |rest|)]
  }

  /** One iteration of the plain HTTP loop meets a disk that gives up to `disk` bytes and a socket
      that accepts the chunk or fails. */
  datatype Turn = Turn(disk: nat, sendOk: bool)

  lemma SliceJoin(data: seq<byte>, a: nat, b: nat, c: nat)
    requires a <= b <= c <= |data|
    ensures data[a..b] + data[b..c] == data[a..c]
  {
  }

  /** What has been sent after n bytes from the seek position. */
  lemma SentSoFar(data: seq<byte>, r: Range, n: nat)
    requires -SIZE_T <= Declared(r, |data|) < SIZE_T
    requires n <= |HttpBody(data, r)|
    ensures Seek(r, |data|) + n <= |data| && data[Seek(r, |data|)..Seek(r, |data|) + n] == HttpBody(data, r)[..n]
  {
    var rest := data[Seek(r, |data|)..];
    hide Seek, AsSizeT;
    assert HttpBody(data, r)[..n] == rest[..n] == data[Seek(r, |data|)..Seek(r, |data|) + n];
  }

  /** The plain HTTP body loop.  Whatever happens, the bytes sent are an initial part of the file
      from the seek position, never more than were asked for; with no read error and no failed
      send they are exactly the undisturbed body. */
  method SendBody(data: seq<byte>, r: Range, env: nat -> Turn) returns (sent: seq<byte>)
    requires -SIZE_T <= Declared(r, |data|) < SIZE_T
    ensures sent <= HttpBody(data, r)
    ensures (forall i: nat :: env(i).disk > 0 && env(i).sendOk) ==> sent == HttpBody(data, r)
  {
    var bytesToSend := AsSizeT(Declared(r, |data|));
    var pos, i := Seek(r, |data|), 0;
    ghost var seek, total := pos, bytesToSend;
    sent := [];
    while bytesToSend > 0
      invariant seek <= pos <= |data|
      invariant 0 <= bytesToSend == total - (pos - seek)
      invariant sent == data[seek..pos]
      decreases |data| - pos, bytesToSend
    {
      var bytesToRead := Min(bytesToSend, BUFFER_SIZE);
      var bytesRead := Min(env(i).disk, Min(bytesToRead, |data| - pos));
      if bytesRead == 0 || !env(i).sendOk { break; }
      SliceJoin(data, seek, pos, pos + bytesRead);
      sent := sent + data[pos..pos + bytesRead];
      pos, bytesToSend, i := pos + bytesRead, bytesToSend - bytesRead, i + 1;
    }
    SentSoFar(data, r, pos - seek);
  }

  /** The ranges whose declared length the run-to-the-end body meets: always without a usable
      range; an open-ended range iff it starts inside the file; a bounded range only if the bound
      is the last byte of the file, or the numbers cancel by accident. */
  predicate RunsToEnd(r: Range, size: nat) {
    match r
    case NoRange => true
    case Garbled => true
    case From(s) => 0 <= s <= size
    case Between(s, e) =>
      if s < 0 then e == size + s - 1
      else if s <= size then e == size - 1
      else e == s - 1
  }

  /** A whole HTTPS transfer, suspended and resumed in any way: once the file is closed and nothing
      is pending, the wire has gained header and body, and the body has the declared length exactly
      for the ranges above. */
  lemma HttpsTransferLength(c: T.Conn, header: seq<byte>, data: seq<byte>, r: Range, t: T.Tls,
                            env: nat -> T.Turn, turns: seq<T.Turn>)
    requires header != [] && c.open
    requires forall j: nat :: env(j).disk > 0
    requires forall j | 0 <= j < |turns| :: turns[j].disk > 0
    requires T.Serve(c, header, data, Seek(r, |data|), t, env).1 in {T.Suspended, T.Complete}
    ensures T.Serve(c, header, data, Seek(r, |data|), t, env).0.Valid()
    ensures var d := T.Drain(T.Serve(c, header, data, Seek(r, |data|), t, env).0, turns);
            d.open && d.stream.None? && d.pending == [] ==>
              && d.wire == c.Out() + header + HttpsBody(data, r)
              && (|d.wire| == |c.Out()| + |header| + Declared(r, |data|) <==> RunsToEnd(r, |data|))
  {
    T.StaticTransfer(c, header, data, Seek(r, |data|), t, env, turns);
  }

  /** Exactly when plain HTTP sends as many bytes as it declares. */
  lemma HttpDeclaredLength(data: seq<byte>, r: Range)
    requires -SIZE_T <= Declared(r, |data|) < SIZE_T
    ensures |HttpBody(data, r)| == Declared(r, |data|) <==>
      match r
      case NoRange => true
      case Garbled => true
      case From(s) => 0 <= s <= |data|
      case Between(s, e) =>
        if s < 0 then s - 1 <= e <= |data| + s - 1
        else if s <= |data| then s - 1 <= e < |data|
        else e == s - 1
  {
  }

  /** For a range that lies in the file, plain HTTP sends exactly the requested bytes; the HTTPS
      server does so iff the range reaches the end of the file. */
  lemma RequestedRange(data: seq<byte>, s: nat, e: nat)
    requires s <= e < |data| < SIZE_T
    ensures HttpBody(data, Between(s, e)) == data[s..e + 1]
    ensures HttpsBody(data, Between(s, e)) == data[s..e + 1] <==> e == |data| - 1
    ensures HttpBody(data, From(s)) == HttpsBody(data, From(s)) == data[s..]
    ensures HttpBody(data, NoRange) == HttpsBody(data, NoRange) == data
  {
  }
}
