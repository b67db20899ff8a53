/**
 * The peer pointers between a browser's connection and the upstream connection opened for it: a
 * heap of connection states, the steps that link, unlink and free them, and the routines that do
 * so in place.  Steps are atomic and clean up only states that are still allocated; a state's
 * identity is not reused.  That the event loops clean up only such states is proved in `PeerEvents`:
 * for every run of the TLS server, and for the plain server except where a worker that fails to
 * forward a request drops an upstream whose event is waiting.
 */
module Peers {
  import opened Common

  datatype Node<T> = Node(proxying: bool, peer: Option<T>)

  /** The allocated states, and every call of `free`, in order. */
  datatype Heap<T> = Heap(nodes: map<T, Node<T>>, frees: seq<T>)

  datatype Event<T> =
    | Create(c: T)
    | SetUp(c: T, upstream: T, registered: bool)  // `registered`: epoll accepted the new socket
    | SendFailed(c: T)                            // the plain server could not forward the request
    | Cleanup(c: T)                               // the plain server's cleanup_client
    | CleanupBoth(c: T)                           // the TLS server's cleanup_client

  ghost predicate New<T>(h: Heap<T>, c: T) {
    c !in h.nodes && c !in h.frees
  }

  ghost predicate Enabled<T>(h: Heap<T>, e: Event<T>) {
    match e
    case Create(c) => New(h, c)
    case SetUp(c, upstream, _) => c in h.nodes && !h.nodes[c].proxying && New(h, upstream)
    case SendFailed(c) => c in h.nodes && h.nodes[c].peer.Some?
    case Cleanup(c) => c in h.nodes
    case CleanupBoth(c) => c in h.nodes
  }

  ghost function Unlink<T>(nodes: map<T, Node<T>>, p: Option<T>): map<T, Node<T>> {
    if p.Some? && p.value in nodes then nodes[p.value := nodes[p.value].(peer := None)] else nodes
  }

  ghost function Step<T>(h: Heap<T>, e: Event<T>): Heap<T>
    requires Enabled(h, e)
  {
    match e
    case Create(c) => h.(nodes := h.nodes[c := Node(false, None)])
    case SetUp(c, upstream, registered) =>
      if registered then h.(nodes := h.nodes[c := Node(true, Some(upstream))][upstream := Node(true, Some(c))])
      else h.(nodes := h.nodes[c := Node(false, None)], frees := h.frees + [upstream])
    case SendFailed(c) =>
      var p := h.nodes[c].peer.value;
      Heap(h.nodes[c := Node(false, None)] - {p}, h.frees + [p])
    case Cleanup(c) => Heap(Unlink(h.nodes, h.nodes[c].peer) - {c}, h.frees + [c])
    case CleanupBoth(c) =>
      var p := h.nodes[c].peer;
      if p.Some? then Heap(h.nodes - {p.value, c}, h.frees + [p.value, c])
      else Heap(h.nodes - {c}, h.frees + [c])
  }

  ghost function Run<T>(h: Heap<T>, events: seq<Event<T>>): Option<Heap<T>>
    decreases |events|
  {
    if events == [] then Some(h)
    else if Enabled(h, events[0]) then Run(Step(h, events[0]), events[1..])
    else None
  }

  /** A live state's peer is live, is another state, and points back. */
  ghost predicate Symmetric<T>(nodes: map<T, Node<T>>) {
    forall c | c in nodes && nodes[c].peer.Some? ::
      var p := nodes[c].peer.value;
      p != c && p in nodes && nodes[p].peer == Some(c) && nodes[c].proxying
  }

  /** No state has been freed twice, and none that has been freed is live. */
  ghost predicate FreedOnce<T>(h: Heap<T>) {
    && (forall i, j | 0 <= i < j < |h.frees| :: h.frees[i] != h.frees[j])
    && (forall c | c in h.frees :: c !in h.nodes)
  }

  /** Every state ever allocated. */
  ghost function Known<T>(h: Heap<T>): set<T> {
    h.nodes.Keys + set c | c in h.frees
  }

  ghost function Created<T>(e: Event<T>): set<T> {
    match e
    case Create(c) => {c}
    case SetUp(_, upstream, _) => {upstream}
    case _ => {}
  }

  lemma StepKeepsPeers<T>(h: Heap<T>, e: Event<T>)
    requires Symmetric(h.nodes) && FreedOnce(h) && Enabled(h, e)
    ensures Symmetric(Step(h, e).nodes) && FreedOnce(Step(h, e))
    ensures h.frees <= Step(h, e).frees
  {
  }

  lemma StepLosesNothing<T>(h: Heap<T>, e: Event<T>)
    requires Symmetric(h.nodes) && Enabled(h, e)
    ensures Known(Step(h, e)) == Known(h) + Created(e)
  {
    var t := Step(h, e);
    forall c ensures c in Known(t) <==> c in Known(h) + Created(e) {
      assert c in t.frees <==> c in h.frees || c in t.frees[|h.frees|..];
    }
  }

  /** A connection that reads requests does so again, with nothing left but the freed upstream, when its
      set-up or the send behind it fails; in between the two states point at each other. */
  lemma SetUpUndone<T>(h: Heap<T>, c: T, upstream: T)
    requires c in h.nodes && h.nodes[c] == Node(false, None) && New(h, upstream)
    ensures Step(h, SetUp(c, upstream, false)) == Heap(h.nodes, h.frees + [upstream])
    ensures var t := Step(h, SetUp(c, upstream, true));
            && t.nodes[c] == Node(true, Some(upstream)) && t.nodes[upstream] == Node(true, Some(c))
            && t.nodes - {c, upstream} == h.nodes - {c} && t.frees == h.frees
            && Step(t, SendFailed(c)) == Heap(h.nodes, h.frees + [upstream])
  {
    var t := Step(h, SetUp(c, upstream, true));
    assert upstream != c;
    assert t.nodes - {c, upstream} == h.nodes - {c};
    assert h.nodes[c := Node(false, None)] == h.nodes;
    assert t.nodes[c := Node(false, None)] - {upstream} == h.nodes;
  }

  ghost function AllCreated<T>(events: seq<Event<T>>): set<T> {
    if events == [] then {} else Created(events[0]) + AllCreated(events[1..])
  }

  /** In every reachable heap the live peers are symmetric, so no state refers to a freed one; and
      every state ever allocated is either live or has been freed, once. */
  lemma {:induction false} PeersStaySymmetric<T>(h: Heap<T>, events: seq<Event<T>>)
    requires Symmetric(h.nodes) && FreedOnce(h)
    ensures Run(h, events).Some? ==>
              var t := Run(h, events).value;
              && Symmetric(t.nodes) && FreedOnce(t) && h.frees <= t.frees
              && (forall c | c in t.nodes && t.nodes[c].peer.Some? :: t.nodes[c].peer.value !in t.frees)
              && Known(t) == Known(h) + AllCreated(events)
    decreases |events|
  {
    if events == [] {
    } else if Enabled(h, events[0]) {
      StepKeepsPeers(h, events[0]);
      StepLosesNothing(h, events[0]);
      PeersStaySymmetric(Step(h, events[0]), events[1..]);
    }
  }

  // ---------------------------------------------------------------------------------------------
  // The routines

  datatype ConnState = ReadRequest | Proxying

  class ClientState {
    var fd: int
    var state: ConnState
    var peer: ClientState?
    var bytesRead: nat

    constructor (fd: int)
      ensures this.fd == fd && state == ReadRequest && peer == null && bytesRead == 0
    {
      this.fd, state, peer, bytesRead := fd, ReadRequest, null, 0;
    }

    /** One half of linking two states. */
    method PointAt(other: ClientState)
      modifies this
      ensures Data() == Node(true, Some(other)) && fd == old(fd) && bytesRead == old(bytesRead)
    {
      state, peer := Proxying, other;
    }

    /** Back to reading requests, without a peer. */
    method Reset()
      modifies this
      ensures Data() == Node(false, None) && fd == old(fd) && bytesRead == 0
    {
      state, peer, bytesRead := ReadRequest, null, 0;
    }

    ghost function Data(): Node<ClientState>
      reads this
    {
      Node(state.Proxying?, if peer == null then None else var p: ClientState := peer; Some(p))
    }
  }

  class Connections {
    ghost var live: set<ClientState>
    ghost var frees: seq<ClientState>

    constructor ()
      ensures live == {} && frees == []
    {
      live, frees := {}, [];
    }

    ghost function State(): Heap<ClientState>
      reads this, live
    {
      Heap(map c | c in live :: c.Data(), frees)
    }

    ghost predicate Valid()
      reads this, live
    {
      Symmetric(State().nodes) && FreedOnce(State())
    }

    lemma PeerOf(c: ClientState)
      requires Valid() && c in live
      ensures c.peer != null ==> c.peer in live && c.peer != c && c.peer.peer == c
      ensures c.state.ReadRequest? ==> c.peer == null
    {
      assert State().nodes[c] == c.Data();
      if c.peer != null {
        var peer: ClientState := c.peer;
        assert c.Data().peer == Some(peer);
        assert peer in State().nodes && State().nodes[peer] == peer.Data();
      }
    }

    ghost method Release(c: ClientState)
      modifies this
      ensures live == old(live) - {c} && frees == old(frees) + [c]
    {
      live, frees := live - {c}, frees + [c];
    }

    method CreateClientState(fd: int) returns (c: ClientState)
      modifies this
      ensures fresh(c) && c.fd == fd && c.Data() == Node(false, None)
      ensures live == old(live) + {c} && frees == old(frees)
    {
      c := new ClientState(fd);
      live := live + {c};
    }

    /** The plain server: the peer is only unlinked; closing its socket is left to the event loop. */
    method CleanupClient(c: ClientState) returns (shut: int)
      requires Valid() && c in live
      modifies this, live
      ensures Valid()
      ensures old(c.fd) == -1 ==> State() == old(State())
      ensures old(c.fd) != -1 ==> State() == Step(old(State()), Cleanup(c)) && c.fd == -1
    {
      shut := -1;
      if c.fd == -1 { return; }
      ghost var h := State();
      PeerOf(c);
      StepKeepsPeers(h, Cleanup(c));
      hide Symmetric, FreedOnce;
      c.fd := -1;
      if c.peer != null {
        var peer := c.peer;
        if peer.fd != -1 { shut := peer.fd; }
        peer.peer := null;
        c.peer := null;
      }
      Release(c);
      assert State().nodes == Step(h, Cleanup(c)).nodes;
    }

    /** The TLS server: the peer goes with it. */
    method CleanupClientAndPeer(c: ClientState)
      requires Valid() && c in live
      modifies this, live
      ensures Valid() && State() == Step(old(State()), CleanupBoth(c))
    {
      ghost var h := State();
      PeerOf(c);
      StepKeepsPeers(h, CleanupBoth(c));
      hide Symmetric, FreedOnce;
      if c.peer != null {
        var peer := c.peer;
        peer.peer := null;
        Release(peer);
      }
      Release(c);
      assert State().nodes == Step(h, CleanupBoth(c)).nodes;
    }

    /** The end of the proxy set-up, once the upstream socket is connected. */
    method LinkUpstream(c: ClientState, socket: int, registered: bool) returns (upstream: ClientState)
      requires Valid() && c in live && c.state.ReadRequest?
      modifies this, c
      ensures fresh(upstream) && New(old(State()), upstream)
      ensures Valid() && State() == Step(old(State()), SetUp(c, upstream, registered))
      ensures !registered ==> c.bytesRead == 0
    {
      ghost var h := State();
      upstream := CreateClientState(socket);
      StepKeepsPeers(h, SetUp(c, upstream, registered));
      hide Symmetric, FreedOnce;
      c.PointAt(upstream);
      upstream.PointAt(c);
      if !registered {
        Release(upstream);
        c.Reset();
      }
      ghost var nodes := Step(h, SetUp(c, upstream, registered)).nodes;
      assert nodes.Keys == live;
      forall d | d in live ensures d.Data() == nodes[d] {
        if d != c && d != upstream { assert d.Data() == h.nodes[d]; }
      }
      assert State().nodes == nodes;
    }

    /** The plain server could not send the request on. */
    method DropUpstream(c: ClientState)
      requires Valid() && c in live && c.peer != null
      modifies this, c
      ensures Valid() && State() == Step(old(State()), SendFailed(c)) && c.bytesRead == 0
    {
      ghost var h := State();
      PeerOf(c);
      StepKeepsPeers(h, SendFailed(c));
      hide Symmetric, FreedOnce;
      Release(c.peer);
      c.Reset();
      assert State().nodes == Step(h, SendFailed(c)).nodes;
    }
  }
}
