/**
 * The buffered write path of the HTTPS server: `ssl_send_response`, `flush_pending_write`,
 * the EPOLLOUT step and the proxy step all share one pending buffer.
 *
 * Each step is a function on values (`Conn`), and what every run of steps keeps is proved about
 * them; `TlsClient` ties the routines, which update a client record in place, to these functions.
 */
module TlsStream {
  import opened Common

  const BUFFER_SIZE: nat := 4096

  /** What the TLS layer answers to one `SSL_write`: it takes up to `n` bytes (0 is WANT_READ or
      WANT_WRITE), or it reports a fatal error. */
  datatype Tls = Room(n: nat) | Broken

  /** An open file being streamed: its whole content and the next read position. */
  datatype Stream = Stream(data: seq<byte>, pos: nat)

  /** One connection: bytes handed to TLS, bytes still buffered, file being streamed. */
  datatype Conn = Conn(wire: seq<byte>, pending: seq<byte>, stream: Option<Stream>, open: bool) {
    function Out(): seq<byte> { wire + pending }

    ghost predicate Valid() {
      stream.Some? ==> stream.value.pos <= |stream.value.data|
    }
  }

  /** `ssl_send_response`: the new connection and the return code. */
  function Send(c: Conn, data: seq<byte>, t: Tls): (r: (Conn, int))
    requires data != []
  {
    if c.pending != [] then
      (c.(pending := c.pending + data), 1)
    else match t
      case Broken => (c, -1)
      case Room(n) =>
        if n < |data| then
          (c.(wire := c.wire + data[..n], pending := data[n..]), 1)
        else
          (c.(wire := c.wire + data), 0)
  }

  /** `flush_pending_write`. */
  function Flush(c: Conn, t: Tls): (r: (Conn, int)) {
    if c.pending == [] then (c, 0)
    else match t
      case Broken => (c, -1)
      case Room(n) =>
        if n < |c.pending| then
          (c.(wire := c.wire + c.pending[..n], pending := c.pending[n..]), 1)
        else
          (c.(wire := c.wire + c.pending, pending := []), 0)
  }

  /** The proxy step: nothing is received while bytes are pending; otherwise one received chunk is
      written and what TLS did not take is deposited. The flag says whether the chunk was taken. */
  function Deposit(c: Conn, chunk: seq<byte>, t: Tls): (r: (Conn, bool)) {
    if c.pending != [] || chunk == [] then (c, false)
    else match t
      case Broken => (c.(open := false), false)
      case Room(n) =>
        if n < |chunk| then
          (c.(wire := c.wire + chunk[..n], pending := chunk[n..]), true)
        else
          (c.(wire := c.wire + chunk), true)
  }

  /** How many bytes one `fread` of a `BUFFER_SIZE` buffer returns when the disk is willing to
      give `disk` bytes (0 is a read error or end of file). */
  function ReadCount(s: Stream, disk: nat): (k: nat)
    requires s.pos <= |s.data|
    ensures s.pos + k <= |s.data| && k <= BUFFER_SIZE && k <= disk
    ensures k < disk ==> k == 4096 || s.pos + k == |s.data|
    ensures disk > 0 ==> (k == 0 <==> s.pos == |s.data|)
  {
    Min(disk, Min(BUFFER_SIZE, |s.data| - s.pos))
  }

  /** The outcome of one EPOLLOUT event: the flush, then at most one file read and send. */
  datatype Turn = Turn(flush: Tls, disk: nat, send: Tls)

  function Epollout(c: Conn, turn: Turn): (c': Conn)
    requires c.Valid()
    ensures c'.Valid()
  {
    var (f, code) := Flush(c, turn.flush);
    if code < 0 then f.(open := false)
    else if code == 0 && f.stream.Some? then
      var s := f.stream.value;
      var k := ReadCount(s, turn.disk);
      if k > 0 then
        var (g, ret) := Send(f, s.data[s.pos..s.pos + k], turn.send);
        g.(stream := Some(s.(pos := s.pos + k)), open := g.open && ret >= 0)
      else
        f.(stream := None)
    else f
  }

  // ---------------------------------------------------------------------------------------------
  // Stream integrity over every run

  datatype Event =
    | SendEvent(data: seq<byte>, tls: Tls)
    | FlushEvent(tls: Tls)
    | DepositEvent(data: seq<byte>, tls: Tls)
    | EpolloutEvent(turn: Turn)

  function Step(c: Conn, e: Event): (c': Conn)
    requires c.Valid()
    ensures c'.Valid()
  {
    match e
    case SendEvent(data, t) => if data == [] then c else Send(c, data, t).0
    case FlushEvent(t) => Flush(c, t).0
    case DepositEvent(data, t) => Deposit(c, data, t).0
    case EpolloutEvent(turn) => Epollout(c, turn)
  }

  /** The bytes the producer of an event is told were accepted: all of the buffer or none of it,
      read off the return code. */
  function Accepted(c: Conn, e: Event): seq<byte>
    requires c.Valid()
  {
    match e
    case SendEvent(data, t) => if data != [] && Send(c, data, t).1 >= 0 then data else []
    case FlushEvent(_) => []
    case DepositEvent(data, t) => if Deposit(c, data, t).1 then data else []
    case EpolloutEvent(turn) =>
      var (f, code) := Flush(c, turn.flush);
      if code != 0 || f.stream.None? then []
      else
        var s := f.stream.value;
        var k := ReadCount(s, turn.disk);
        var chunk := s.data[s.pos..s.pos + k];
        if k > 0 && Send(f, chunk, turn.send).1 >= 0 then chunk else []
  }

  function Run(c: Conn, events: seq<Event>): (c': Conn)
    requires c.Valid()
    ensures c'.Valid()
    decreases |events|
  {
    if events == [] then c else Run(Step(c, events[0]), events[1..])
  }

  function AcceptedBy(c: Conn, events: seq<Event>): seq<byte>
    requires c.Valid()
    decreases |events|
  {
    if events == [] then []
    else Accepted(c, events[0]) + AcceptedBy(Step(c, events[0]), events[1..])
  }

  lemma SendKeepsOrder(c: Conn, data: seq<byte>, t: Tls)
    requires data != []
    ensures var (c', ret) := Send(c, data, t);
            && c'.Out() == c.Out() + (if ret >= 0 then data else [])
            && c.wire <= c'.wire
            && (ret == 0 <==> c.pending == [] && c' == c.(wire := c.wire + data))
            && (ret == 1 ==> c'.pending != [])
            && (ret == -1 ==> c' == c) && ret in {-1, 0, 1}
            && c'.stream == c.stream && c'.open == c.open
    ensures var (c', ret) := Send(c, data, t);
            if c.pending != [] then c'.wire == c.wire && ret == 1
            else if t.Broken? then ret == -1
            else |c'.wire| == |c.wire| + Min(t.n, |data|) && ret >= 0
  {
  }

  lemma FlushKeepsOrder(c: Conn, t: Tls)
    ensures var (c', ret) := Flush(c, t);
            && c'.Out() == c.Out() && c.wire <= c'.wire
            && (ret == 0 <==> c'.pending == [])
            && c'.stream == c.stream && c'.open == c.open
    ensures var (c', ret) := Flush(c, t);
            if t.Broken? then c' == c && (ret == -1 <==> c.pending != [])
            else |c'.wire| == |c.wire| + Min(t.n, |c.pending|) && ret >= 0
  {
  }

  lemma DepositKeepsOrder(c: Conn, chunk: seq<byte>, t: Tls)
    ensures var (c', took) := Deposit(c, chunk, t);
            && c'.Out() == c.Out() + (if took then chunk else [])
            && c.wire <= c'.wire && c'.stream == c.stream
    ensures var (c', took) := Deposit(c, chunk, t);
            if c.pending != [] || chunk == [] then c' == c && !took
            else if t.Broken? then c' == c.(open := false) && !took
            else |c'.wire| == |c.wire| + Min(t.n, |chunk|) && took && c'.open == c.open
  {
  }

  lemma StepKeepsOrder(c: Conn, e: Event)
    requires c.Valid()
    ensures Step(c, e).Out() == c.Out() + Accepted(c, e)
    ensures c.wire <= Step(c, e).wire
  {
    hide Send, Flush, Deposit;
    match e
    case SendEvent(data, t) => if data != [] { SendKeepsOrder(c, data, t); }
    case FlushEvent(t) => FlushKeepsOrder(c, t);
    case DepositEvent(data, t) => DepositKeepsOrder(c, data, t);
    case EpolloutEvent(turn) =>
      FlushKeepsOrder(c, turn.flush);
      var (f, code) := Flush(c, turn.flush);
      if code == 0 && f.stream.Some? {
        var s := f.stream.value;
        var k := ReadCount(s, turn.disk);
        if k > 0 { SendKeepsOrder(f, s.data[s.pos..s.pos + k], turn.send); }
      }
  }

  /** For every sequence of sends, flushes, proxy deposits and EPOLLOUT events, under every TLS
      answer: what is on the wire followed by what is pending is what was there before followed by
      every accepted buffer, in order; the wire itself only grows. */
  lemma {:induction false} StreamIntegrity(c: Conn, events: seq<Event>)
    requires c.Valid()
    ensures Run(c, events).Out() == c.Out() + AcceptedBy(c, events)
    ensures c.wire <= Run(c, events).wire
    decreases |events|
  {
    if events == [] {
    } else {
      StepKeepsOrder(c, events[0]);
      StreamIntegrity(Step(c, events[0]), events[1..]);
      var a, b := Accepted(c, events[0]), AcceptedBy(Step(c, events[0]), events[1..]);
      assert c.Out() + (a + b) == (c.Out() + a) + b;
    }
  }

  function Flushes(rooms: seq<nat>): seq<Event> {
    seq(|rooms|, i requires 0 <= i < |rooms| => FlushEvent(Room(rooms[i])))
  }

  function Sum(rooms: seq<nat>): nat {
    if rooms == [] then 0 else rooms[0] + Sum(rooms[1..])
  }

  /** The first n pending bytes moved to the wire. */
  function Moved(c: Conn, n: nat): (d: Conn)
    requires n <= |c.pending|
    ensures |d.pending| == |c.pending| - n && d.stream == c.stream
  {
    c.(wire := c.wire + c.pending[..n], pending := c.pending[n..])
  }

  lemma MovedTwice(c: Conn, n: nat, m: nat)
    requires n + m <= |c.pending|
    ensures Moved(Moved(c, n), m) == Moved(c, n + m)
  {
    var p := c.pending;
    SliceJoin(p, 0, n, n + m);
    assert p[n..][..m] == p[n..n + m] && p[n..][m..] == p[n + m..];
    assert c.wire + p[..n] + p[n..n + m] == c.wire + (p[..n] + p[n..n + m]);
  }

  /** One flush moves exactly as many bytes as TLS has room for. */
  lemma FlushTakes(c: Conn, room: nat)
    ensures Flush(c, Room(room)).0 == Moved(c, Min(room, |c.pending|))
  {
    FlushKeepsOrder(c, Room(room));
    var d, n := Flush(c, Room(room)).0, Min(room, |c.pending|);
    assert d.wire == d.Out()[..|d.wire|] && d.pending == d.Out()[|d.wire|..];
    assert c.Out()[..|c.wire| + n] == c.wire + c.pending[..n] && c.Out()[|c.wire| + n..] == c.pending[n..];
  }

  lemma MinSplit(a: nat, b: nat, len: nat)
    ensures var n := Min(a, len); Min(a + b, len) == n + Min(b, len - n)
  {
  }

  lemma NoFlush(c: Conn)
    requires c.Valid()
    ensures Run(c, Flushes([])) == Moved(c, Min(Sum([]), |c.pending|))
  {
    assert c.wire + c.pending[..0] == c.wire && c.pending[0..] == c.pending;
  }

  /** The first of several flushes. */
  lemma FlushFirst(c: Conn, rooms: seq<nat>)
    requires c.Valid() && rooms != []
    ensures var n := Min(rooms[0], |c.pending|);
            && Moved(c, n).Valid() && |Moved(c, n).pending| == |c.pending| - n
            && Run(c, Flushes(rooms)) == Run(Moved(c, n), Flushes(rooms[1..]))
            && Min(Sum(rooms), |c.pending|) == n + Min(Sum(rooms[1..]), |c.pending| - n)
  {
    FlushTakes(c, rooms[0]);
    MinSplit(rooms[0], Sum(rooms[1..]), |c.pending|);
    hide Flush, Min;
    assert Flushes(rooms)[1..] == Flushes(rooms[1..]);
  }

  /** However TLS splits them, flushes put as many of the pending bytes on the wire as there is room
      for in all, and none is left as soon as there is room for every one. */
  lemma {:induction false} FlushesDrain(c: Conn, rooms: seq<nat>)
    requires c.Valid()
    ensures Run(c, Flushes(rooms)) == Moved(c, Min(Sum(rooms), |c.pending|))
    decreases |rooms|
  {
    hide Flush, Run, Flushes, Sum;
    if rooms == [] {
      NoFlush(c);
    } else {
      var n := Min(rooms[0], |c.pending|);
      FlushFirst(c, rooms);
      FlushesDrain(Moved(c, n), rooms[1..]);
      MovedTwice(c, n, Min(Sum(rooms[1..]), |c.pending| - n));
    }
  }

  // ---------------------------------------------------------------------------------------------
  // Static transfer: `serve_static_file` and its resumption by EPOLLOUT events

  /** How `serve_static_file` left: header refused, file handed to the EPOLLOUT step, file fully
      read, or a fatal error in the body. */
  datatype Served = Refused | Suspended | Complete | Aborted

  /** The body loop from read position `pos`; iteration `i` meets `env(i)`. */
  function ServeLoop(c: Conn, data: seq<byte>, pos: nat, i: nat, env: nat -> Turn): (r: (Conn, Served, nat))
    requires pos <= |data|
    ensures pos <= r.2 <= |data|
    decreases |data| - pos
  {
    var k := ReadCount(Stream(data, pos), env(i).disk);
    if k == 0 then (c.(stream := None), Complete, pos)
    else
      var (g, ret) := Send(c, data[pos..pos + k], env(i).send);
      if ret < 0 then (g, Aborted, pos)
      else if ret == 1 then (g.(stream := Some(Stream(data, pos + k))), Suspended, pos + k)
      else ServeLoop(g, data, pos + k, i + 1, env)
  }

  /** `serve_static_file` once the file is open and positioned at `seek`: status, and how far the
      file was read. */
  function Serve(c: Conn, header: seq<byte>, data: seq<byte>, seek: nat, t: Tls, env: nat -> Turn)
    : (r: (Conn, Served, nat))
    requires header != [] && seek <= |data|
    ensures seek <= r.2 <= |data|
  {
    var (h, ret) := Send(c, header, t);
    if ret < 0 then (h, Refused, seek)
    else if h.pending == [] then ServeLoop(h, data, seek, 0, env)
    else (h.(stream := Some(Stream(data, seek))), Suspended, seek)
  }

  function Drain(c: Conn, turns: seq<Turn>): (c': Conn)
    requires c.Valid()
    ensures c'.Valid()
    decreases |turns|
  {
    if turns == [] || !c.open then c else Drain(Epollout(c, turns[0]), turns[1..])
  }

  lemma SliceJoin(data: seq<byte>, a: nat, b: nat, c: nat)
    requires a <= b <= c <= |data|
    ensures data[a..b] + data[b..c] == data[a..c]
  {
  }

  lemma OutputGrows(out: seq<byte>, data: seq<byte>, a: nat, b: nat, c: nat)
    requires a <= b <= c <= |data|
    ensures out + data[a..b] + data[b..c] == out + data[a..c]
  {
    SliceJoin(data, a, b, c);
    assert out + data[a..b] + data[b..c] == out + (data[a..b] + data[b..c]);
  }

  lemma {:induction false} ServeLoopOutput(c: Conn, data: seq<byte>, pos: nat, i: nat, env: nat -> Turn)
    requires pos <= |data| && c.pending == []
    ensures var (d, status, p) := ServeLoop(c, data, pos, i, env);
            && d.Out() == c.Out() + data[pos..p]
            && d.open == c.open && !status.Refused?
            && (status.Suspended? ==> d.stream == Some(Stream(data, p)) && d.pending != [])
            && (status.Complete? ==> d.stream == None && d.pending == [])
            && (status.Complete? && (forall j: nat :: env(j).disk > 0) ==> p == |data|)
            && (status.Aborted? ==> exists j: nat :: env(j).send.Broken?)
    decreases |data| - pos
  {
    hide Send;
    var k := ReadCount(Stream(data, pos), env(i).disk);
    if k == 0 {
    } else {
      var (g, ret) := Send(c, data[pos..pos + k], env(i).send);
      SendKeepsOrder(c, data[pos..pos + k], env(i).send);
      if ret == 0 {
        ServeLoopOutput(g, data, pos + k, i + 1, env);
        OutputGrows(c.Out(), data, pos, pos + k, ServeLoop(g, data, pos + k, i + 1, env).2);
      }
    }
  }

  lemma ServeOutput(c: Conn, header: seq<byte>, data: seq<byte>, seek: nat, t: Tls, env: nat -> Turn)
    requires header != [] && seek <= |data|
    ensures var (d, status, p) := Serve(c, header, data, seek, t, env);
            && d.open == c.open
            && (status.Refused? <==> t.Broken? && c.pending == []) && (status.Refused? ==> d == c)
            && (!status.Refused? ==> d.Out() == c.Out() + header + data[seek..p])
            && (status.Suspended? ==> d.stream == Some(Stream(data, p)) && d.pending != [])
            && (status.Complete? ==> d.stream == None && d.pending == [])
            && (status.Complete? && (forall j: nat :: env(j).disk > 0) ==> p == |data|)
            && (status.Aborted? ==> exists j: nat :: env(j).send.Broken?)
  {
    SendKeepsOrder(c, header, t);
    var (h, ret) := Send(c, header, t);
    if ret >= 0 {
      if h.pending == [] {
        ServeLoopOutput(h, data, seek, 0, env);
      } else {
        assert data[seek..seek] == [];
      }
    }
  }

  /** `c` is streaming `data` behind `base`, from `seek` on; or it has stopped after a prefix. */
  ghost predicate Following(c: Conn, base: seq<byte>, data: seq<byte>, seek: nat) {
    && c.Valid() && seek <= |data|
    && match c.stream
       case Some(s) => s.data == data && seek <= s.pos && c.Out() == base + data[seek..s.pos]
       case None => c.Out() <= base + data[seek..]
  }

  lemma FollowStep(c: Conn, turn: Turn, base: seq<byte>, data: seq<byte>, seek: nat)
    requires Following(c, base, data, seek)
    ensures var e := Epollout(c, turn);
            && (e.open ==> Following(e, base, data, seek))
            && e.Out() <= base + data[seek..]
            && (c.stream.None? ==> e.stream.None? && e.Out() == c.Out())
            && (turn.disk > 0 && e.open && c.stream.Some? && e.stream.None? ==> e.Out() == base + data[seek..])
  {
    hide Send, Flush;
    FlushKeepsOrder(c, turn.flush);
    var f := Flush(c, turn.flush).0;
    if c.stream.Some? {
      var s := c.stream.value;
      SliceJoin(data, seek, s.pos, |data|);
      assert base + data[seek..] == c.Out() + data[s.pos..];
      var k := ReadCount(s, turn.disk);
      if f.pending == [] && k > 0 {
        SendKeepsOrder(f, data[s.pos..s.pos + k], turn.send);
        FollowRead(base, data, seek, s.pos, k);
      }
    }
  }

  lemma FollowRead(base: seq<byte>, data: seq<byte>, seek: nat, pos: nat, k: nat)
    requires seek <= pos && pos + k <= |data|
    ensures base + data[seek..pos] + data[pos..pos + k] == base + data[seek..pos + k] <= base + data[seek..]
  {
  }

  /** Without any assumption on the disk or on TLS, and also after a fatal error, what has been
      output is always a prefix of what came before and the rest of the file: nothing is lost,
      repeated or reordered in between. */
  lemma {:induction false} DrainPrefix(c: Conn, base: seq<byte>, data: seq<byte>, seek: nat, turns: seq<Turn>)
    requires Following(c, base, data, seek)
    ensures Drain(c, turns).wire <= Drain(c, turns).Out() <= base + data[seek..]
    ensures Drain(c, turns).open ==> Following(Drain(c, turns), base, data, seek)
    decreases |turns|
  {
    if c.stream.Some? { FollowRead(base, data, seek, c.stream.value.pos, 0); }
    if turns == [] {
    } else if c.open {
      FollowStep(c, turns[0], base, data, seek);
      var e := Epollout(c, turns[0]);
      if e.open { DrainPrefix(e, base, data, seek, turns[1..]); } else { assert Drain(e, turns[1..]) == e; }
    }
  }

  /** Resuming a transfer any number of times without a read error: once the step has closed the
      file, the output holds the whole rest of it. */
  lemma {:induction false} DrainComplete(c: Conn, base: seq<byte>, data: seq<byte>, seek: nat, turns: seq<Turn>)
    requires Following(c, base, data, seek)
    requires c.stream.None? ==> c.Out() == base + data[seek..]
    requires forall j | 0 <= j < |turns| :: turns[j].disk > 0
    ensures var d := Drain(c, turns); d.open && d.stream.None? ==> d.Out() == base + data[seek..]
    decreases |turns|
  {
    if turns == [] {
    } else if c.open {
      FollowStep(c, turns[0], base, data, seek);
      var e := Epollout(c, turns[0]);
      if e.open { DrainComplete(e, base, data, seek, turns[1..]); } else { assert Drain(e, turns[1..]) == e; }
    }
  }

  /** The static transfer as a whole.  For every TLS behaviour, every suspension point and every
      number of EPOLLOUT resumptions without a read error, wire and pending together are the old
      output, the header, and the file from the seek position to the read position; when the file
      has been closed and nothing is pending, the wire alone is header and the whole rest. */
  lemma StaticTransfer(c: Conn, header: seq<byte>, data: seq<byte>, seek: nat, t: Tls, env: nat -> Turn,
      turns: seq<Turn>)
    requires header != [] && seek <= |data| && c.open
    requires forall j: nat :: env(j).disk > 0
    requires forall j | 0 <= j < |turns| :: turns[j].disk > 0
    requires Serve(c, header, data, seek, t, env).1 in {Suspended, Complete}
    ensures Serve(c, header, data, seek, t, env).0.Valid()
    ensures var d := Drain(Serve(c, header, data, seek, t, env).0, turns);
            d.open ==>
              && (d.stream.Some? ==>
                  d.stream.value.data == data && seek <= d.stream.value.pos
                  && d.Out() == c.Out() + header + data[seek..d.stream.value.pos])
              && (d.stream.None? ==> d.Out() == c.Out() + header + data[seek..])
              && (d.stream.None? && d.pending == [] ==> d.wire == c.Out() + header + data[seek..])
  {
    ServeOutput(c, header, data, seek, t, env);
    var d := Serve(c, header, data, seek, t, env).0;
    assert Following(d, c.Out() + header, data, seek);
    DrainPrefix(d, c.Out() + header, data, seek, turns);
    DrainComplete(d, c.Out() + header, data, seek, turns);
    var e := Drain(d, turns);
    if e.pending == [] {
      assert e.Out() == e.wire;
    }
  }

  // ---------------------------------------------------------------------------------------------
  // The end of a transfer

  /** TLS takes at least a byte of what is pending, the disk gives at least one, nothing fails. */
  predicate Willing(turn: Turn) {
    turn.flush.Room? && turn.flush.n > 0 && turn.disk > 0 && turn.send.Room?
  }

  /** How many willing turns a transfer can still need: a byte may be read, and then wait. */
  function Remaining(c: Conn): nat
    requires c.Valid()
  {
    if c.stream.None? then |c.pending| else 1 + |c.pending| + 2 * (|c.stream.value.data| - c.stream.value.pos)
  }

  /** A step closes the connection exactly if TLS breaks under its flush, or under the send of what it
      has read behind a complete flush. */
  lemma ClosesExactly(c: Conn, turn: Turn)
    requires c.Valid() && c.open
    ensures var flushed := c.pending == [] || (turn.flush.Room? && turn.flush.n >= |c.pending|);
            !Epollout(c, turn).open <==>
              || (c.pending != [] && turn.flush.Broken?)
              || (flushed && c.stream.Some? && c.stream.value.pos < |c.stream.value.data| && turn.disk > 0
                  && turn.send.Broken?)
  {
    FlushKeepsOrder(c, turn.flush);
    var (f, code) := Flush(c, turn.flush);
    hide Flush, Send;
    if code == 0 && f.stream.Some? {
      var s := f.stream.value;
      var k := ReadCount(s, turn.disk);
      if k > 0 { SendKeepsOrder(f, s.data[s.pos..s.pos + k], turn.send); }
    }
  }

  /** A willing turn brings the transfer closer to its end; the end stays. */
  lemma TurnAdvances(c: Conn, turn: Turn)
    requires c.Valid() && c.open && Willing(turn)
    ensures var e := Epollout(c, turn);
            e.open && if Remaining(c) > 0 then Remaining(e) < Remaining(c) else e == c
  {
    FlushTakes(c, turn.flush.n);
    var (f, code) := Flush(c, turn.flush);
    FlushKeepsOrder(c, turn.flush);
    hide Flush, Send;
    if code == 0 && f.stream.Some? {
      var s := f.stream.value;
      var k := ReadCount(s, turn.disk);
      if k > 0 {
        SendKeepsOrder(f, s.data[s.pos..s.pos + k], turn.send);
        assert |Send(f, s.data[s.pos..s.pos + k], turn.send).0.Out()| == |f.Out()| + k;
      }
    }
  }

  /** As many willing turns as remain close the file and leave nothing pending. */
  lemma {:induction false} DrainEnds(c: Conn, turns: seq<Turn>)
    requires c.Valid() && c.open && |turns| >= Remaining(c)
    requires forall j | 0 <= j < |turns| :: Willing(turns[j])
    ensures var d := Drain(c, turns); d.open && d.stream == None && d.pending == []
    decreases |turns|
  {
    if turns == [] {
    } else {
      TurnAdvances(c, turns[0]);
      DrainEnds(Epollout(c, turns[0]), turns[1..]);
    }
  }

  /** A transfer comes to its end: however the header or the body was cut short, as many willing turns
      as are left put header and the whole rest of the file on the wire and close the file. */
  lemma TransferEnds(c: Conn, header: seq<byte>, data: seq<byte>, seek: nat, t: Tls, env: nat -> Turn,
      turns: seq<Turn>)
    requires header != [] && seek <= |data| && c.open
    requires forall j: nat :: env(j).disk > 0
    requires Serve(c, header, data, seek, t, env).1 in {Suspended, Complete}
    requires forall j | 0 <= j < |turns| :: Willing(turns[j])
    ensures var d := Serve(c, header, data, seek, t, env).0;
            && d.Valid()
            && (|turns| >= Remaining(d) ==>
                  Drain(d, turns) == Conn(c.Out() + header + data[seek..], [], None, true))
  {
    ServeOutput(c, header, data, seek, t, env);
    var d := Serve(c, header, data, seek, t, env).0;
    hide Serve;
    if |turns| >= Remaining(d) {
      DrainEnds(d, turns);
      StaticTransfer(c, header, data, seek, t, env, turns);
    }
  }
}
