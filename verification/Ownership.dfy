/**
 * Who may touch a connection of the plain HTTP server: the epoll set, the event loop, the queue or
 * one of the eight workers.  Every step of the event loop and of the workers that hands a
 * connection on is a step of its own, so that all their interleavings are runs of the model.
 */
module Ownership {
  import opened Common

  const BUFFER_SIZE := 4096
  const WORKERS := 8
  const MAX_EVENTS := 64

  type Id = nat

  /** Where the event loop is. */
  datatype Main =
    | Idle
    | Reading(c: Id)        // in the loop around `recv`
    | Deregistered(c: Id)   // taken out of epoll, not yet pushed
    | Checking(c: Id)       // behind the loop, before the size check

  datatype State = State(
    registered: set<Id>,
    ready: seq<Id>,               // what is left of the batch `epoll_wait` returned
    main: Main,
    queue: seq<Id>,
    workers: seq<Option<Id>>,
    bytes: map<Id, nat>,          // `bytes_read` of every connection ever accepted
    freed: set<Id>,
    dropped: set<Id>,             // closed by a worker and never touched again
    pushed: seq<Id>,              // all that was ever pushed to the queue, and popped from it
    popped: seq<Id>
  )

  datatype Event =
    | Accept(c: Id)
    | Wait(batch: seq<Id>)
    | Take
    | Got(n: nat, complete: bool) // `recv` returned n bytes; `complete`: the buffer has the blank line
    | Again                       // EAGAIN
    | Hangup                      // end of input, or an error
    | Push
    | Check
    | Pop(i: nat)
    | Rearm(i: nat)               // the worker's last act: back into epoll
    | Drop(i: nat)                // or it closes the socket and forgets the connection

  const INITIAL := State({}, [], Idle, [], seq(WORKERS, i => None), map[], {}, {}, [], [])

  predicate Free(s: State, i: nat) {
    i < |s.workers| && s.workers[i].None?
  }

  predicate Busy(s: State, i: nat) {
    i < |s.workers| && s.workers[i].Some?
  }

  predicate Enabled(s: State, e: Event) {
    match e
    case Accept(c) => s.main.Idle? && c !in s.bytes
    case Wait(batch) =>
      && s.main.Idle? && s.ready == [] && |batch| <= MAX_EVENTS
      && (forall i | 0 <= i < |batch| :: batch[i] in s.registered)
      && (forall i, j | 0 <= i < j < |batch| :: batch[i] != batch[j])
    case Take => s.main.Idle? && s.ready != [] && s.ready[0] in s.bytes
    case Got(n, _) => s.main.Reading? && s.main.c in s.bytes && 0 < n <= BUFFER_SIZE - s.bytes[s.main.c] - 1
    case Again => s.main.Reading?
    case Hangup => s.main.Reading?
    case Push => s.main.Deregistered?
    case Check => s.main.Checking? && s.main.c in s.bytes
    case Pop(i) => Free(s, i) && s.queue != []
    case Rearm(i) => Busy(s, i)
    case Drop(i) => Busy(s, i)
  }

  /** `while (client->bytes_read < BUFFER_SIZE - 1)`. */
  function Loop(c: Id, bytes: nat): Main {
    if bytes < BUFFER_SIZE - 1 then Reading(c) else Checking(c)
  }

  /** `cleanup_client`. */
  function Cleanup(s: State, c: Id): State {
    s.(registered := s.registered - {c}, freed := s.freed + {c})
  }

  function Step(s: State, e: Event): State
    requires Enabled(s, e)
  {
    match e
    case Accept(c) => s.(registered := s.registered + {c}, bytes := s.bytes[c := 0])
    case Wait(batch) => s.(ready := batch)
    case Take => s.(ready := s.ready[1..], main := Loop(s.ready[0], s.bytes[s.ready[0]]))
    case Got(n, complete) =>
      var c := s.main.c;
      var t := s.(bytes := s.bytes[c := s.bytes[c] + n]);
      if complete then t.(registered := s.registered - {c}, main := Deregistered(c))
      else t.(main := Loop(c, t.bytes[c]))
    case Again => s.(main := Checking(s.main.c))
    case Hangup => Cleanup(s, s.main.c).(main := Checking(s.main.c))
    case Push =>
      s.(queue := s.queue + [s.main.c], pushed := s.pushed + [s.main.c], main := Checking(s.main.c))
    case Check =>
      (if s.bytes[s.main.c] >= BUFFER_SIZE - 1 then Cleanup(s, s.main.c) else s).(main := Idle)
    case Pop(i) =>
      s.(queue := s.queue[1..], popped := s.popped + [s.queue[0]], workers := s.workers[i := Some(s.queue[0])])
    case Rearm(i) =>
      var c := s.workers[i].value;
      s.(registered := s.registered + {c}, bytes := s.bytes[c := 0], workers := s.workers[i := None])
    case Drop(i) => s.(dropped := s.dropped + {s.workers[i].value}, workers := s.workers[i := None])
  }

  /** A request that is complete has come in fewer than BUFFER_SIZE - 1 bytes. */
  predicate Short(s: State, e: Event)
    requires Enabled(s, e)
  {
    e.Got? && e.complete ==> s.bytes[s.main.c] + e.n < BUFFER_SIZE - 1
  }

  /** The state after the events, if they are possible and all requests are short. */
  function Run(s: State, events: seq<Event>): Option<State>
    decreases |events|
  {
    if events == [] then Some(s)
    else if Enabled(s, events[0]) && Short(s, events[0]) then Run(Step(s, events[0]), events[1..])
    else None
  }

  // ---------------------------------------------------------------------------------------------
  // Ownership

  function One(b: bool): nat { if b then 1 else 0 }

  /** How many owners connection c has; being freed or dropped counts as one. */
  function Owners(s: State, c: Id): nat {
    One(c in s.registered) + One(s.main == Deregistered(c)) + multiset(s.queue)[c]
    + multiset(s.workers)[Some(c)] + One(c in s.freed) + One(c in s.dropped)
  }

  ghost predicate OwnedOnce(s: State) {
    forall c: Id :: Owners(s, c) == One(c in s.bytes)
  }

  /** The connections of the batch, and the one being read, are in the epoll set. */
  predicate Batch(s: State) {
    && (forall i | 0 <= i < |s.ready| :: s.ready[i] in s.registered)
    && (forall i, j | 0 <= i < j < |s.ready| :: s.ready[i] != s.ready[j])
    && (!s.main.Idle? ==> s.main.c in s.bytes && s.main.c !in s.ready)
    && (s.main.Reading? ==> s.main.c in s.registered)
  }

  /** Only a connection that the size check is about to close has filled its buffer. */
  predicate Sizes(s: State) {
    forall c | c in s.bytes && s.bytes[c] >= BUFFER_SIZE - 1 ::
      if s.main == Checking(c) then c in s.registered else c in s.freed
  }

  /** The queue is what has been pushed and not yet popped. */
  predicate Fifo(s: State) {
    s.pushed == s.popped + s.queue
  }

  ghost predicate Inv(s: State) {
    |s.workers| == WORKERS && OwnedOnce(s) && Batch(s) && Sizes(s) && Fifo(s)
  }

  lemma PoppedFrom(q: seq<Id>, c: Id)
    requires q != []
    ensures multiset(q)[c] == One(q[0] == c) + multiset(q[1..])[c]
  {
    assert q == [q[0]] + q[1..];
  }

  /** One worker's slot changes. */
  lemma Slot(w: seq<Option<Id>>, i: nat, x: Option<Id>, c: Id)
    requires i < |w| && w[i] != x
    ensures multiset(w[i := x])[Some(c)] + One(w[i] == Some(c)) == multiset(w)[Some(c)] + One(x == Some(c))
  {
  }

  lemma PopOwners(s: State, i: nat, c: Id)
    requires Enabled(s, Pop(i))
    ensures Owners(Step(s, Pop(i)), c) == Owners(s, c)
  {
    PoppedFrom(s.queue, c);
    Slot(s.workers, i, Some(s.queue[0]), c);
  }

  lemma RearmOwners(s: State, i: nat, c: Id)
    requires Enabled(s, Rearm(i)) && s.workers[i].value !in s.registered
    ensures Owners(Step(s, Rearm(i)), c) == Owners(s, c)
  {
    Slot(s.workers, i, None, c);
  }

  lemma DropOwners(s: State, i: nat, c: Id)
    requires Enabled(s, Drop(i)) && s.workers[i].value !in s.dropped
    ensures Owners(Step(s, Drop(i)), c) == Owners(s, c)
  {
    Slot(s.workers, i, None, c);
  }

  /** A worker has its connection to itself. */
  lemma WorkersOwn(s: State, i: nat)
    requires OwnedOnce(s) && Busy(s, i)
    ensures s.workers[i].value !in s.registered && s.workers[i].value !in s.dropped && s.workers[i].value in s.bytes
  {
    var c := s.workers[i].value;
    assert Some(c) in multiset(s.workers);
    assert Owners(s, c) == One(c in s.bytes);
  }

  /** The worker's steps move a connection on, and its count of owners with it. */
  lemma WorkerOwners(s: State, e: Event)
    requires OwnedOnce(s) && Enabled(s, e) && (e.Pop? || e.Rearm? || e.Drop?)
    ensures OwnedOnce(Step(s, e))
  {
    forall c: Id ensures Owners(Step(s, e), c) == One(c in Step(s, e).bytes) {
      assert Owners(s, c) == One(c in s.bytes);
      match e
      case Pop(i) => PopOwners(s, i, c);
      case Rearm(i) =>
        WorkersOwn(s, i);
        RearmOwners(s, i, c);
      case Drop(i) =>
        WorkersOwn(s, i);
        DropOwners(s, i, c);
    }
  }

  /** The event loop's steps that hand a connection on: each takes one owner away and gives one. */
  lemma PushOwners(s: State, c: Id)
    requires Enabled(s, Push)
    ensures Owners(Step(s, Push), c) == Owners(s, c)
  {
    assert multiset(s.queue + [s.main.c])[c] == multiset(s.queue)[c] + One(s.main.c == c);
  }

  lemma GotOwners(s: State, n: nat, complete: bool, c: Id)
    requires Enabled(s, Got(n, complete)) && s.main.c in s.registered
    ensures Owners(Step(s, Got(n, complete)), c) == Owners(s, c)
  {
  }

  lemma FreeOwners(s: State, e: Event, c: Id)
    requires Enabled(s, e) && (e.Hangup? || e.Check?)
    requires e.Hangup? || s.bytes[s.main.c] >= BUFFER_SIZE - 1 ==> s.main.c in s.registered && s.main.c !in s.freed
    ensures Owners(Step(s, e), c) == Owners(s, c)
  {
  }

  lemma HandingOwners(s: State, e: Event, c: Id)
    requires Inv(s) && Enabled(s, e) && Short(s, e) && (e.Push? || e.Got? || e.Hangup? || e.Check?)
    ensures Owners(Step(s, e), c) == Owners(s, c)
  {
    assert s.main.c in s.registered ==> s.main.c !in s.freed by {
      assert Owners(s, s.main.c) == One(s.main.c in s.bytes);
    }
    hide OwnedOnce, Fifo, Owners, Step;
    match e
    case Push => PushOwners(s, c);
    case Got(n, complete) => GotOwners(s, n, complete, c);
    case _ => FreeOwners(s, e, c);
  }

  lemma MainOwners(s: State, e: Event)
    requires Inv(s) && Enabled(s, e) && Short(s, e) && !e.Pop? && !e.Rearm? && !e.Drop?
    ensures OwnedOnce(Step(s, e))
  {
    forall c: Id ensures Owners(Step(s, e), c) == One(c in Step(s, e).bytes) {
      assert Owners(s, c) == One(c in s.bytes);
      if e.Push? || e.Got? || e.Hangup? || e.Check? {
        HandingOwners(s, e, c);
        hide Owners;
      }
    }
  }

  lemma StepOwners(s: State, e: Event)
    requires Inv(s) && Enabled(s, e) && Short(s, e)
    ensures OwnedOnce(Step(s, e))
  {
    hide OwnedOnce, Batch, Sizes, Fifo, Step;
    if e.Pop? || e.Rearm? || e.Drop? { WorkerOwners(s, e); } else { MainOwners(s, e); }
  }

  lemma StepBatch(s: State, e: Event)
    requires Inv(s) && Enabled(s, e) && Short(s, e)
    ensures |Step(s, e).workers| == WORKERS && Batch(Step(s, e))
  {
    hide OwnedOnce, Sizes, Fifo;
  }

  lemma StepSizes(s: State, e: Event)
    requires Inv(s) && Enabled(s, e) && Short(s, e)
    ensures Sizes(Step(s, e))
  {
  }

  lemma StepFifo(s: State, e: Event)
    requires Fifo(s) && Enabled(s, e)
    ensures Fifo(Step(s, e)) && s.pushed <= Step(s, e).pushed && s.popped <= Step(s, e).popped
  {
    if e.Pop? { assert s.queue == [s.queue[0]] + s.queue[1..]; }
  }

  lemma {:induction false} RunKeepsInv(s: State, events: seq<Event>)
    requires Inv(s)
    ensures Run(s, events).Some? ==> Inv(Run(s, events).value)
    decreases |events|
  {
    if events == [] {
    } else if Enabled(s, events[0]) && Short(s, events[0]) {
      StepOwners(s, events[0]);
      StepBatch(s, events[0]);
      StepSizes(s, events[0]);
      StepFifo(s, events[0]);
      RunKeepsInv(Step(s, events[0]), events[1..]);
    }
  }

  lemma InitialInv()
    ensures Inv(INITIAL)
  {
    forall c: Id ensures Owners(INITIAL, c) == 0 { assert multiset(INITIAL.workers)[Some(c)] == 0; }
  }

  /** Whatever the event loop still has in hand when it looks at the size once more: if anybody else
      owns the connection by then, or nobody, the look changes nothing. */
  predicate HarmlessCheck(s: State) {
    s.main.Checking? && s.main.c in s.bytes && s.main.c !in s.registered ==>
      Enabled(s, Check) && Step(s, Check) == s.(main := Idle)
  }

  /** In every interleaving of the event loop and the workers, each accepted connection is in exactly
      one place: the epoll set, on its way to the queue, the queue, one worker, or given up.  While
      the event loop reads a connection or takes it out of epoll, nobody else has it.  Only its last
      look at the size can come after the connection has gone on, and that look changes nothing. */
  lemma OneOwner(events: seq<Event>)
    ensures Run(INITIAL, events).Some? ==>
              var s := Run(INITIAL, events).value;
              && OwnedOnce(s)
              && (s.main.Reading? ==> s.main.c in s.registered)
              && HarmlessCheck(s)
  {
    InitialInv();
    RunKeepsInv(INITIAL, events);
  }

  lemma RunOne(s: State, e: Event, rest: seq<Event>)
    requires Enabled(s, e) && Short(s, e)
    ensures Run(s, [e] + rest) == Run(Step(s, e), rest)
  {
    assert ([e] + rest)[1..] == rest;
  }

  lemma RunNone(s: State)
    ensures Run(s, []) == Some(s)
  {
  }

  /** The first connection is accepted, reported, and about to be read. */
  const FIRST: seq<Event> := [Accept(0)] + ([Wait([0])] + ([Take] + []))

  const READING := State({0}, [], Reading(0), [], seq(WORKERS, i => None), map[0 := 0], {}, {}, [], [])

  lemma FirstRead()
    ensures Run(INITIAL, FIRST) == Some(READING) && Inv(READING) && |READING.workers| == 8
    ensures forall n, complete :: Enabled(READING, Got(n, complete)) <==> 1 <= n <= 4095
  {
    var a := Step(INITIAL, Accept(0));
    var b := Step(a, Wait([0]));
    assert Step(b, Take) == READING;
    RunNone(READING);
    RunOne(b, Take, []);
    RunOne(a, Wait([0]), [Take] + []);
    RunOne(INITIAL, Accept(0), [Wait([0])] + ([Take] + []));
    InitialInv();
    RunKeepsInv(INITIAL, FIRST);
  }

  /** A served connection that is re-armed can be read again, with the whole buffer free. */
  lemma NextRequest(s: State, i: nat)
    requires Busy(s, i) && s.main.Idle? && s.ready == []
    ensures var c := s.workers[i].value;
            var r := Run(s, [Rearm(i)] + ([Wait([c])] + ([Take] + [])));
            && r.Some? && r.value.main == Reading(c)
            && forall n, complete :: Enabled(r.value, Got(n, complete)) <==> 1 <= n <= 4095
  {
    var c := s.workers[i].value;
    var a := Step(s, Rearm(i));
    var b := Step(a, Wait([c]));
    var r := Step(b, Take);
    RunNone(r);
    RunOne(b, Take, []);
    RunOne(a, Wait([c]), [Take] + []);
    RunOne(s, Rearm(i), [Wait([c])] + ([Take] + []));
    assert Run(s, [Rearm(i)] + ([Wait([c])] + ([Take] + []))) == Some(r);
  }

  /** That overlap exists: the event loop has pushed the connection, a worker holds it, and the event
      loop has yet to look at its size. */
  lemma CheckAfterPop() returns (s: State)
    ensures Run(READING, [Got(5, true)] + ([Push] + ([Pop(0)] + []))) == Some(s)
    ensures s.main == Checking(0) && Busy(s, 0) && s.workers[0] == Some(0)
  {
    var a := Step(READING, Got(5, true));
    var b := Step(a, Push);
    s := Step(b, Pop(0));
    hide Step;
    RunNone(s);
    RunOne(b, Pop(0), []);
    RunOne(a, Push, [Pop(0)] + []);
    RunOne(READING, Got(5, true), [Push] + ([Pop(0)] + []));
  }

  /** Likewise after the event loop has freed the connection itself. */
  lemma CheckAfterFree() returns (s: State)
    ensures Run(READING, [Hangup] + []) == Some(s) && s.main == Checking(0) && 0 in s.freed
  {
    s := Step(READING, Hangup);
    RunNone(s);
    RunOne(READING, Hangup, []);
  }

  /** Exactly when: a step that brings the event loop to its last look at a connection leaves the
      connection in the epoll set, and so with the event loop alone, if and only if it is neither the
      hand-over to the queue nor the clean-up after a hang-up. */
  lemma LateLookExactly(s: State, e: Event)
    requires Inv(s) && Enabled(s, e) && Short(s, e)
    requires !s.main.Checking? && Step(s, e).main.Checking?
    ensures Step(s, e).main.c in Step(s, e).registered <==> !e.Push? && !e.Hangup?
  {
    assert !e.Accept? && !e.Wait? && !e.Pop? && !e.Rearm? && !e.Drop?;
    if !e.Take? { assert Owners(s, s.main.c) == One(s.main.c in s.bytes); }
  }

  /** And until it looks, nobody takes the connection out of the epoll set. */
  lemma LateLookStays(s: State, e: Event)
    requires Inv(s) && Enabled(s, e) && Short(s, e) && !e.Check?
    requires s.main.Checking? && s.main.c in s.registered
    ensures Step(s, e).main == s.main && s.main.c in Step(s, e).registered
  {
  }

  /** Under every interleaving of the event loop and the eight workers, what the workers have taken is
      an initial part of what the event loop has put in, in order; the rest is in the queue. */
  lemma QueueIsFifo(events: seq<Event>)
    ensures Run(INITIAL, events).Some? ==>
              var s := Run(INITIAL, events).value;
              s.popped <= s.pushed && s.queue == s.pushed[|s.popped|..]
  {
    InitialInv();
    RunKeepsInv(INITIAL, events);
  }

  /** Every continuation from s with short requests keeps each connection with one owner. */
  ghost predicate Survives(s: State) {
    forall events :: Run(s, events).Some? ==> OwnedOnce(Run(s, events).value)
  }

  lemma TooLong(s: State, n: nat)
    requires Inv(s) && Enabled(s, Got(n, true)) && s.bytes[s.main.c] + n == BUFFER_SIZE - 1
    ensures !Survives(Step(s, Got(n, true)))
  {
    var t, c, events := Step(s, Got(n, true)), s.main.c, [Push, Check];
    var u := Step(Step(t, Push), Check);
    assert events[1..] == [Check] && [Check][1..] == [];
    assert Run(Step(t, Push), [Check]) == Run(u, []);
    assert Run(t, events) == Some(u);
    assert c in u.freed && c in multiset(u.queue);
    assert Owners(u, c) >= 2 > One(c in u.bytes);
  }

  /** The bound on the request is exact: whatever `recv` delivers next, ownership survives every
      continuation if and only if the request is not complete with a full buffer.  A request that
      is leaves its connection in the queue and freed. */
  lemma BoundIsExact(s: State, n: nat, complete: bool)
    requires Inv(s) && Enabled(s, Got(n, complete))
    ensures Survives(Step(s, Got(n, complete))) <==> !(complete && s.bytes[s.main.c] + n == 4095)
  {
    var t := Step(s, Got(n, complete));
    if complete && s.bytes[s.main.c] + n == BUFFER_SIZE - 1 {
      TooLong(s, n);
    } else {
      StepOwners(s, Got(n, complete));
      StepBatch(s, Got(n, complete));
      StepSizes(s, Got(n, complete));
      StepFifo(s, Got(n, complete));
      forall events ensures Run(t, events).Some? ==> OwnedOnce(Run(t, events).value) {
        RunKeepsInv(t, events);
      }
    }
  }

  /** And such a request can come: as the first one of the first connection (see `FirstRead`). */
  lemma FullRequestArrives()
    ensures Enabled(READING, Got(4095, true))
    ensures !Survives(Step(READING, Got(4095, true)))
  {
    FirstRead();
    TooLong(READING, BUFFER_SIZE - 1);
  }
}
