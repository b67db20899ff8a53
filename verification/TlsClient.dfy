/**
 * The client record of the HTTPS server, updated in place: the pending buffer is a heap block
 * that is grown by `realloc`, shifted by `memmove` and freed.  `wire` is a ghost record of the
 * bytes TLS has taken.  Every method is tied to the step function of `TlsStream` that it performs.
 */
module TlsClient {
  import opened Common
  import opened TlsStream

  class ClientState {
    var pendingData: array?<byte>
    var pendingLen: nat
    var fileStream: Option<Stream>
    var open: bool
    ghost var wire: seq<byte>

    /** The pending block exists exactly when bytes are pending, and holds them. */
    ghost predicate Valid()
      reads this, pendingData
    {
      && (pendingData != null <==> pendingLen > 0)
      && (pendingData != null ==> pendingLen <= pendingData.Length)
      && (fileStream.Some? ==> fileStream.value.pos <= |fileStream.value.data|)
    }

    ghost function Pending(): seq<byte>
      reads this, pendingData
      requires Valid()
    {
      if pendingData == null then [] else pendingData[..pendingLen]
    }

    ghost function Abs(): (c: Conn)
      reads this, pendingData
      requires Valid()
      ensures c.Valid()
    {
      Conn(wire, Pending(), fileStream, open)
    }

    constructor ()
      ensures Valid() && Abs() == Conn([], [], None, true)
    {
      pendingData, pendingLen, fileStream, open, wire := null, 0, None, true, [];
    }

    /** `ssl_send_response`. */
    method Send(data: seq<byte>, t: Tls) returns (ret: int)
      requires Valid() && data != []
      modifies this, pendingData
      ensures Valid() && (pendingData == old(pendingData) || fresh(pendingData))
      ensures (Abs(), ret) == TlsStream.Send(old(Abs()), data, t)
    {
      if pendingLen > 0 {
        // realloc(pending, len + |data|), then memcpy behind the old bytes
        ghost var before := Pending();
        var grown := new byte[pendingLen + |data|];
        forall i | 0 <= i < pendingLen { grown[i] := pendingData[i]; }
        forall i | 0 <= i < |data| { grown[pendingLen + i] := data[i]; }
        pendingData, pendingLen := grown, pendingLen + |data|;
        assert pendingData[..pendingLen] == before + data;
        return 1;
      }
      match t
      case Broken => return -1;
      case Room(n) =>
        var sent := if n < |data| then n else |data|;
        wire := wire + data[..sent];
        assert sent == |data| ==> data[..sent] == data;
        if sent < |data| {
          var rest := new byte[|data| - sent](i requires 0 <= i < |data| - sent => data[sent + i]);
          pendingData, pendingLen := rest, |data| - sent;
          assert pendingData[..pendingLen] == data[sent..];
          return 1;
        }
        return 0;
    }

    /** `flush_pending_write`: what TLS did not take is moved to the front of the same block. */
    method Flush(t: Tls) returns (ret: int)
      requires Valid()
      modifies this, pendingData
      ensures Valid() && (pendingData == old(pendingData) || pendingData == null)
      ensures (Abs(), ret) == TlsStream.Flush(old(Abs()), t)
    {
      if pendingData == null || pendingLen == 0 {
        return 0;
      }
      match t
      case Broken => return -1;
      case Room(n) =>
        ghost var before := Pending();
        var sent := if n < pendingLen then n else pendingLen;
        assert pendingData[..sent] == before[..sent];
        wire := wire + pendingData[..sent];
        if sent == pendingLen {
          assert before[..sent] == before;
          pendingData, pendingLen := null, 0;
          return 0;
        }
        var remaining := pendingLen - sent;
        forall i | 0 <= i < remaining { pendingData[i] := pendingData[sent + i]; }
        pendingLen := remaining;
        assert Pending() == before[sent..];
        return 1;
    }

    /** The upstream half of the proxy step, on the browser's record: `chunk` is what one `recv`
        from the upstream socket would give. */
    method Deposit(chunk: seq<byte>, t: Tls) returns (took: bool)
      requires Valid()
      modifies this, pendingData
      ensures Valid() && (pendingData == old(pendingData) || fresh(pendingData))
      ensures (Abs(), took) == TlsStream.Deposit(old(Abs()), chunk, t)
    {
      if pendingLen > 0 || chunk == [] {
        return false;
      }
      match t
      case Broken =>
        open := false;
        return false;
      case Room(n) =>
        var sent := if n < |chunk| then n else |chunk|;
        wire := wire + chunk[..sent];
        assert sent == |chunk| ==> chunk[..sent] == chunk;
        if sent < |chunk| {
          var diff := |chunk| - sent;
          var block := new byte[diff](i requires 0 <= i < diff => chunk[sent + i]);
          pendingData, pendingLen := block, diff;
          assert pendingData[..pendingLen] == chunk[sent..];
        }
        return true;
    }

    /** The EPOLLOUT step of the event loop. */
    method Epollout(turn: Turn)
      requires Valid()
      modifies this, pendingData
      ensures Valid()
      ensures Abs() == TlsStream.Epollout(old(Abs()), turn)
    {
      hide TlsStream.Send, TlsStream.Flush;
      FlushKeepsOrder(Abs(), turn.flush);
      var code := Flush(turn.flush);
      if code < 0 {
        open := false;
      } else if code == 0 && fileStream.Some? {
        var s := fileStream.value;
        var k := ReadCount(s, turn.disk);
        if k > 0 {
          var ret := Send(s.data[s.pos..s.pos + k], turn.send);
          fileStream := Some(s.(pos := s.pos + k));
          if ret < 0 { open := false; }
        } else {
          fileStream := None;
        }
      }
    }

    /** `serve_static_file` from the header on; iteration `i` of the body loop meets `env(i)`. */
    method ServeStatic(header: seq<byte>, data: seq<byte>, seek: nat, t: Tls, env: nat -> Turn)
      returns (status: Served, ghost reached: nat)
      requires Valid() && header != [] && seek <= |data|
      modifies this, pendingData
      ensures Valid()
      ensures (Abs(), status, reached) == Serve(old(Abs()), header, data, seek, t, env)
    {
      reached := seek;
      var ret := Send(header, t);
      if ret < 0 {
        return Refused, seek;
      }
      if pendingLen > 0 {
        fileStream := Some(Stream(data, seek));
        return Suspended, seek;
      }
      status, reached := ServeBody(data, seek, env);
    }

    /** The body loop of `serve_static_file`, entered with nothing pending. */
    method ServeBody(data: seq<byte>, seek: nat, env: nat -> Turn) returns (status: Served, ghost reached: nat)
      requires Valid() && pendingData == null && seek <= |data|
      modifies this
      ensures Valid()
      ensures (Abs(), status, reached) == ServeLoop(old(Abs()), data, seek, 0, env)
    {
      var pos, i := seek, 0;
      while true
        invariant Valid() && pos <= |data| && pendingData == null
        invariant ServeLoop(old(Abs()), data, seek, 0, env) == ServeLoop(Abs(), data, pos, i, env)
        decreases |data| - pos
      {
        var k, ret := ServeChunk(data, pos, i, env);
        if k == 0 { return Complete, pos; }
        if ret < 0 { return Aborted, pos; }
        if ret == 1 { return Suspended, pos + k; }
        pos, i := pos + k, i + 1;
      }
    }

    /** One iteration of that loop: `fread`, `ssl_send_response`, and what becomes of the file. */
    method ServeChunk(data: seq<byte>, pos: nat, i: nat, env: nat -> Turn) returns (k: nat, ret: int)
      requires Valid() && pendingData == null && pos <= |data|
      modifies this
      ensures Valid() && pos + k <= |data| && ret in {-1, 0, 1} && (k == 0 ==> ret == 0)
      ensures k > 0 && ret == 0 ==> pendingData == null
      ensures ServeLoop(old(Abs()), data, pos, i, env) ==
        if k == 0 then (Abs(), Complete, pos)
        else if ret < 0 then (Abs(), Aborted, pos)
        else if ret == 1 then (Abs(), Suspended, pos + k)
        else ServeLoop(Abs(), data, pos + k, i + 1, env)
    {
      ghost var c := Abs();
      k := ReadCount(Stream(data, pos), env(i).disk);
      if k == 0 {
        fileStream := None;
        return 0, 0;
      }
      SendKeepsOrder(c, data[pos..pos + k], env(i).send);
      ret := Send(data[pos..pos + k], env(i).send);
      if ret == 1 {
        fileStream := Some(Stream(data, pos + k));
      }
    }
  }
}
