/**
 * Events for freed states.  The event loop takes a batch of pointers from epoll and handles them one
 * by one; while it does, its clean-ups and the workers free states.  The turns of both servers, with
 * who is registered with epoll and who is with the queue or a worker; every request is short in the
 * sense of `Ownership`.
 */
module PeerEvents {
  import opened Common
  import opened Peers

  datatype Server = Plain | Tls

  /** The heap, the states registered with epoll, those whose events are still to be handled, and
      those that are in the queue or with a worker. */
  datatype Loop<T> = Loop(heap: Heap<T>, registered: set<T>, batch: seq<T>, held: set<T>)

  datatype Turn<T> =
    | Accept(c: T)
    | Wait(batch: seq<T>)                        // `epoll_wait` returns registered states, each once
    | Handle                                     // the next event is handled and nothing is freed
    | HandOff                                    // its request is complete: out of epoll, into the queue
    | CleanUp                                    // its connection has ended or failed
    | Link(c: T, upstream: T, registered: bool)  // a worker opens the upstream connection
    | Fail(c: T)                                 // the plain server's worker cannot forward the request
    | Rearm(c: T)                                // a worker is done: back into epoll
    | Drop(c: T)                                 // or leaves the connection as it is, for good
    | Discard(c: T)                              // or frees it: the TLS server's worker could not re-arm it

  ghost function Empty<T>(): Loop<T> {
    Loop(Heap(map[], []), {}, [], {})
  }

  /** The clean-up routine of each server. */
  function CleanupOf<T>(server: Server, c: T): Event<T> {
    if server.Plain? then Cleanup(c) else CleanupBoth(c)
  }

  ghost predicate Possible<T>(server: Server, l: Loop<T>, t: Turn<T>) {
    match t
    case Accept(c) => Enabled(l.heap, Create(c))
    case Wait(batch) =>
      && l.batch == [] && (forall c | c in batch :: c in l.registered)
      && (forall i, j | 0 <= i < j < |batch| :: batch[i] != batch[j])
    case Handle => l.batch != []
    case HandOff => l.batch != [] && l.batch[0] in l.heap.nodes && !l.heap.nodes[l.batch[0]].proxying
    case CleanUp => l.batch != [] && l.batch[0] in l.heap.nodes
    case Link(c, upstream, registered) => c in l.held && Enabled(l.heap, SetUp(c, upstream, registered))
    case Fail(c) => server.Plain? && c in l.held && Enabled(l.heap, SendFailed(c))
    case Rearm(c) => c in l.held
    case Drop(c) => c in l.held
    case Discard(c) => server.Tls? && c in l.held && c in l.heap.nodes
  }

  /** The states that a clean-up of c frees. */
  ghost function Freed<T>(server: Server, l: Loop<T>, c: T): set<T>
    requires c in l.heap.nodes
  {
    var p := l.heap.nodes[c].peer;
    if server.Tls? && p.Some? then {c, p.value} else {c}
  }

  /** On the TLS server, setting up a proxied connection is the worker's last act, and the browser's
      end stays out of epoll; the plain server's worker goes on to forward the request and re-arms
      both.  Closing a socket takes it out of epoll. */
  ghost function Next<T>(server: Server, l: Loop<T>, t: Turn<T>): Loop<T>
    requires Possible(server, l, t)
  {
    match t
    case Accept(c) => l.(heap := Step(l.heap, Create(c)), registered := l.registered + {c})
    case Wait(batch) => l.(batch := batch)
    case Handle => l.(batch := l.batch[1..])
    case HandOff =>
      l.(registered := l.registered - {l.batch[0]}, held := l.held + {l.batch[0]}, batch := l.batch[1..])
    case CleanUp =>
      l.(heap := Step(l.heap, CleanupOf(server, l.batch[0])),
         registered := l.registered - Freed(server, l, l.batch[0]), batch := l.batch[1..])
    case Link(c, upstream, registered) =>
      l.(heap := Step(l.heap, SetUp(c, upstream, registered)),
         registered := if registered then l.registered + {upstream} else l.registered,
         held := if server.Tls? then l.held - {c} else l.held)
    case Fail(c) =>
      l.(heap := Step(l.heap, SendFailed(c)), held := l.held - {c},
         registered := l.registered - {l.heap.nodes[c].peer.value})
    case Rearm(c) => l.(registered := l.registered + {c}, held := l.held - {c})
    case Drop(c) => l.(held := l.held - {c})
    case Discard(c) => l.(heap := Step(l.heap, CleanupBoth(c)), held := l.held - {c})
  }

  ghost function RunTurns<T>(server: Server, l: Loop<T>, turns: seq<Turn<T>>): Option<Loop<T>>
    decreases |turns|
  {
    if turns == [] then Some(l)
    else if Possible(server, l, turns[0]) then RunTurns(server, Next(server, l, turns[0]), turns[1..])
    else None
  }

  /** Every waiting event is for a live state. */
  ghost predicate NoStale<T>(l: Loop<T>) {
    forall c | c in l.batch :: c in l.heap.nodes
  }

  ghost predicate Sound<T>(l: Loop<T>) {
    && Symmetric(l.heap.nodes) && FreedOnce(l.heap)
    && l.registered <= l.heap.nodes.Keys && l.held <= l.heap.nodes.Keys && l.registered !! l.held
    && (forall c | c in l.batch :: c in l.registered)
    && (forall i, j | 0 <= i < j < |l.batch| :: l.batch[i] != l.batch[j])
  }

  lemma Popped<T>(batch: seq<T>)
    requires batch != [] && forall i, j | 0 <= i < j < |batch| :: batch[i] != batch[j]
    ensures batch[0] !in batch[1..] && forall c | c in batch[1..] :: c in batch
    ensures forall i, j | 0 <= i < j < |batch[1..]| :: batch[1..][i] != batch[1..][j]
  {
  }

  /** A turn that frees nothing and links nothing. */
  lemma QuietTurn<T>(server: Server, l: Loop<T>, t: Turn<T>)
    requires Sound(l) && Possible(server, l, t)
    requires t.Wait? || t.Handle? || t.HandOff? || t.Rearm? || t.Drop?
    ensures Next(server, l, t).heap == l.heap && Sound(Next(server, l, t))
  {
    if t.Handle? || t.HandOff? { Popped(l.batch); }
    hide Symmetric, FreedOnce;
  }

  /** Who has a state after a turn about it: epoll and the event loop, or queue and workers, or, when it
      is given up, neither. */
  lemma CustodyMoves<T>(server: Server, l: Loop<T>, t: Turn<T>)
    requires Sound(l) && Possible(server, l, t)
    ensures var n := Next(server, l, t);
            && (t.Accept? || t.Rearm? ==> t.c in n.registered && t.c !in n.held)
            && (t.HandOff? ==> l.batch[0] in n.held && l.batch[0] !in n.registered)
            && (t.Link? && t.registered ==> t.upstream in n.registered && (t.c in n.held <==> server.Plain?))
            && (t.Fail? || t.Drop? || t.Discard? ==> t.c !in n.registered && t.c !in n.held)
            && (t.CleanUp? ==> l.batch[0] !in n.registered && l.batch[0] !in n.heap.nodes)
  {
    hide Symmetric;
  }

  // ---------------------------------------------------------------------------------------------
  // The TLS server

  /** Of the two ends of a proxied connection at most one is registered, and a worker has neither. */
  ghost predicate OneEnd<T>(l: Loop<T>)
    requires l.registered <= l.heap.nodes.Keys && l.held <= l.heap.nodes.Keys
  {
    && (forall c | c in l.registered && l.heap.nodes[c].peer.Some? :: l.heap.nodes[c].peer.value !in l.registered)
    && (forall c | c in l.held :: l.heap.nodes[c].peer.None?)
  }

  ghost predicate TlsInv<T>(l: Loop<T>) {
    Sound(l) && OneEnd(l)
  }

  lemma TlsCleanUp<T>(l: Loop<T>)
    requires TlsInv(l) && Possible(Tls, l, CleanUp)
    ensures TlsInv(Next(Tls, l, CleanUp))
  {
    Popped(l.batch);
    StepKeepsPeers(l.heap, CleanupBoth(l.batch[0]));
    hide FreedOnce;
  }

  lemma TlsLink<T>(l: Loop<T>, c: T, upstream: T, registered: bool)
    requires TlsInv(l) && Possible(Tls, l, Link(c, upstream, registered))
    ensures TlsInv(Next(Tls, l, Link(c, upstream, registered)))
  {
    StepKeepsPeers(l.heap, SetUp(c, upstream, registered));
    hide FreedOnce;
  }

  lemma TlsTurn<T>(l: Loop<T>, t: Turn<T>)
    requires TlsInv(l) && Possible(Tls, l, t)
    ensures TlsInv(Next(Tls, l, t))
  {
    match t
    case Accept(c) => StepKeepsPeers(l.heap, Create(c));
    case Discard(c) => StepKeepsPeers(l.heap, CleanupBoth(c));
    case CleanUp => TlsCleanUp(l);
    case Link(c, upstream, registered) => TlsLink(l, c, upstream, registered);
    case _ => QuietTurn(Tls, l, t);
  }

  lemma {:induction false} TlsRun<T>(l: Loop<T>, turns: seq<Turn<T>>)
    requires TlsInv(l)
    ensures RunTurns(Tls, l, turns).Some? ==> TlsInv(RunTurns(Tls, l, turns).value)
    decreases |turns|
  {
    if turns == [] {
    } else if Possible(Tls, l, turns[0]) {
      TlsTurn(l, turns[0]);
      TlsRun(Next(Tls, l, turns[0]), turns[1..]);
    }
  }

  /** In every run of the TLS server, with no assumption on its batches, each event that is handled is
      for a live state, peers are live and symmetric, nothing is freed twice, the workers hold only
      live states, and no batch ever has both ends of a proxied connection. */
  lemma TlsEventsAreLive<T>(turns: seq<Turn<T>>)
    ensures RunTurns(Tls, Empty(), turns).Some? ==>
              var l := RunTurns(Tls, Empty(), turns).value;
              && NoStale(l) && Symmetric(l.heap.nodes) && FreedOnce(l.heap)
              && (forall c | c in l.held :: c in l.heap.nodes)
              && (forall c, d | c in l.batch && d in l.batch :: l.heap.nodes[c].peer != Some(d))
  {
    TlsRun(Empty(), turns);
  }

  // ---------------------------------------------------------------------------------------------
  // The plain server

  /** The one turn that frees a state behind the event loop's back: a worker drops an upstream whose
      event is waiting. */
  ghost predicate Surprising<T>(l: Loop<T>, t: Turn<T>)
    requires Possible(Plain, l, t)
  {
    t.Fail? && l.heap.nodes[t.c].peer.value in l.batch
  }

  /** A worker that has one end of a proxied connection is the only one that has. */
  ghost predicate PlainInv<T>(l: Loop<T>) {
    && Sound(l)
    && forall c | c in l.held && l.heap.nodes[c].peer.Some? :: l.heap.nodes[c].peer.value !in l.held
  }

  lemma PlainCleanUp<T>(l: Loop<T>)
    requires PlainInv(l) && Possible(Plain, l, CleanUp)
    ensures PlainInv(Next(Plain, l, CleanUp))
  {
    Popped(l.batch);
    StepKeepsPeers(l.heap, Cleanup(l.batch[0]));
    hide Symmetric, FreedOnce;
  }

  lemma PlainFail<T>(l: Loop<T>, c: T)
    requires PlainInv(l) && Possible(Plain, l, Fail(c))
    ensures PlainInv(Next(Plain, l, Fail(c))) <==> !Surprising(l, Fail(c))
    ensures NoStale(Next(Plain, l, Fail(c))) <==> !Surprising(l, Fail(c))
  {
    StepKeepsPeers(l.heap, SendFailed(c));
    var p := l.heap.nodes[c].peer.value;
    assert p !in Next(Plain, l, Fail(c)).heap.nodes;
    hide FreedOnce;
  }

  /** One turn keeps all waiting events live if and only if it is not such a failed send. */
  lemma PlainTurn<T>(l: Loop<T>, t: Turn<T>)
    requires PlainInv(l) && Possible(Plain, l, t)
    ensures PlainInv(Next(Plain, l, t)) <==> !Surprising(l, t)
    ensures NoStale(Next(Plain, l, t)) <==> !Surprising(l, t)
  {
    match t
    case Accept(c) => StepKeepsPeers(l.heap, Create(c));
    case Link(c, upstream, registered) => StepKeepsPeers(l.heap, SetUp(c, upstream, registered));
    case CleanUp => PlainCleanUp(l);
    case Fail(c) => PlainFail(l, c);
    case _ => QuietTurn(Plain, l, t);
  }

  /** No turn of the run is such a failed send. */
  ghost predicate Unsurprising<T>(l: Loop<T>, turns: seq<Turn<T>>)
    decreases |turns|
  {
    turns == []
    || (Possible(Plain, l, turns[0]) ==>
          !Surprising(l, turns[0]) && Unsurprising(Next(Plain, l, turns[0]), turns[1..]))
  }

  /** All waiting events are for live states, now and after every turn of the run. */
  ghost predicate AlwaysLive<T>(l: Loop<T>, turns: seq<Turn<T>>)
    decreases |turns|
  {
    && NoStale(l)
    && (turns == [] || (Possible(Plain, l, turns[0]) ==> AlwaysLive(Next(Plain, l, turns[0]), turns[1..])))
  }

  lemma {:induction false} PlainRun<T>(l: Loop<T>, turns: seq<Turn<T>>)
    requires PlainInv(l)
    ensures AlwaysLive(l, turns) <==> Unsurprising(l, turns)
    decreases |turns|
  {
    if turns == [] {
    } else if Possible(Plain, l, turns[0]) {
      PlainTurn(l, turns[0]);
      if !Surprising(l, turns[0]) { PlainRun(Next(Plain, l, turns[0]), turns[1..]); }
    }
  }

  /** Exactly in the runs of the plain server in which no worker drops an upstream whose event is
      waiting, every event that is handled is for a live state. */
  lemma PlainEventsAreLive<T>(turns: seq<Turn<T>>)
    ensures AlwaysLive(Empty(), turns) <==> Unsurprising(Empty(), turns)
  {
    PlainRun(Empty(), turns);
  }

  /** One turn in front of a run. */
  lemma RunOne<T>(l: Loop<T>, t: Turn<T>, rest: seq<Turn<T>>)
    requires Possible(Plain, l, t)
    ensures RunTurns(Plain, l, [t] + rest) == RunTurns(Plain, Next(Plain, l, t), rest)
  {
    assert ([t] + rest)[1..] == rest;
  }

  function FailedForward<T>(c: T, p: T): seq<Turn<T>> {
    [Accept(c)] + ([Wait([c])] + ([HandOff] + ([Link(c, p, true)] + ([Wait([p])] + [Fail(c)]))))
  }

  /** The request of c is complete, and a worker has opened its upstream p. */
  lemma Opened<T>(c: T, p: T) returns (l: Loop<T>)
    requires c != p
    ensures l == Loop(Heap(map[c := Node(true, Some(p)), p := Node(true, Some(c))], []), {p}, [], {c})
    ensures forall rest ::
              RunTurns(Plain, Empty(), [Accept(c)] + ([Wait([c])] + ([HandOff] + ([Link(c, p, true)] + rest))))
              == RunTurns(Plain, l, rest)
  {
    var l1 := Next(Plain, Empty(), Accept(c));
    var l2 := Next(Plain, l1, Wait([c]));
    var l3 := Next(Plain, l2, HandOff);
    assert l3 == Loop(Heap(map[c := Node(false, None)], []), {}, [], {c});
    l := Next(Plain, l3, Link(c, p, true));
    hide Next;
    forall rest
      ensures RunTurns(Plain, Empty(), [Accept(c)] + ([Wait([c])] + ([HandOff] + ([Link(c, p, true)] + rest))))
              == RunTurns(Plain, l, rest)
    {
      hide RunTurns;
      RunOne(l3, Link(c, p, true), rest);
      RunOne(l2, HandOff, [Link(c, p, true)] + rest);
      RunOne(l1, Wait([c]), [HandOff] + ([Link(c, p, true)] + rest));
      RunOne(Empty(), Accept(c), [Wait([c])] + ([HandOff] + ([Link(c, p, true)] + rest)));
    }
  }

  /** And there are others: epoll reports the upstream that has just been opened, and then the worker
      fails to forward the request and frees it. */
  lemma StaleEvent<T>(c: T, p: T) returns (l: Loop<T>)
    requires c != p
    ensures RunTurns(Plain, Empty(), FailedForward(c, p)) == Some(l)
    ensures l.batch == [p] && l.heap.frees == [p] && !NoStale(l)
  {
    var ready := Opened(c, p);
    var waiting := Next(Plain, ready, Wait([p]));
    l := Next(Plain, waiting, Fail(c));
    RunOne(waiting, Fail(c), []);
    assert [Fail(c)] + [] == [Fail(c)];
    RunOne(ready, Wait([p]), [Fail(c)]);
  }
}
