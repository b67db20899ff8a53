/**
 * The radio server's broadcast ring as a small concurrent protocol: one broadcaster fills 64
 * slots under a mutex and signals a condition variable; twelve senders take a snapshot of the
 * write index under the same mutex and then read the slot without it.  The broadcaster's memcpy is
 * one step per byte, so senders may read in the middle of it.
 */
module RadioRing {
  import opened Common

  const SLOTS: nat := 64
  const BUFFER_SIZE: nat := 4096
  const NUM_SENDERS: nat := 12

  /** Where the broadcaster is: reading the file, copying `chunk` with the mutex held, or past the
      unlock and before `pthread_cond_broadcast`. */
  datatype Broadcaster = Reading | Copying(chunk: seq<byte>, done: nat) | Signalling

  /** Where a sender is: about to lock, blocked in the condition wait, woken and about to re-lock,
      or passing over its client list with a snapshot. */
  datatype Phase = Start | Blocked | Woken | Passing

  /** `last` and `size` are the thread's variables; `taken` records the number of the newest
      broadcast at each of its snapshots. */
  datatype Sender = Sender(phase: Phase, last: int, size: nat, taken: seq<nat>)

  /** `chunks` records every broadcast begun so far: chunk number k is `chunks[k - 1]`. */
  datatype State = State(
    slots: seq<seq<byte>>,
    sizes: seq<nat>,
    writeIndex: nat,
    broadcaster: Broadcaster,
    senders: seq<Sender>,
    chunks: seq<seq<byte>>
  )

  datatype Event =
    | Acquire(data: seq<byte>)     // lock; advance g_write_index; start memcpy
    | CopyByte                     // one byte of the memcpy
    | Release                      // store the size; unlock
    | Signal                       // pthread_cond_broadcast
    | Look(i: nat)                 // a sender locks, tests the index, and waits or takes a snapshot
    | Spurious(i: nat)             // a wake-up without a signal
    | EndPass(i: nat)              // a sender has served its whole list

  function Initial(): State {
    State(
      seq(SLOTS, _ => seq(BUFFER_SIZE, _ => 0)), seq(SLOTS, _ => 0), 0, Reading,
      seq(NUM_SENDERS, _ => Sender(Start, -1, 0, [])), [])
  }

  predicate Shape(s: State) {
    && |s.slots| == SLOTS && |s.sizes| == SLOTS && s.writeIndex < SLOTS && |s.senders| == NUM_SENDERS
    && (forall j | 0 <= j < SLOTS :: |s.slots[j]| == BUFFER_SIZE)
    && (s.broadcaster.Copying? ==>
        s.broadcaster.done <= |s.broadcaster.chunk| <= BUFFER_SIZE)
  }

  predicate Enabled(s: State, e: Event) {
    match e
    case Acquire(data) => s.broadcaster.Reading? && 0 < |data| <= BUFFER_SIZE
    case CopyByte => s.broadcaster.Copying? && s.broadcaster.done < |s.broadcaster.chunk|
    case Release => s.broadcaster.Copying? && s.broadcaster.done == |s.broadcaster.chunk|
    case Signal => s.broadcaster.Signalling?
    case Look(i) => i < |s.senders| && s.senders[i].phase in {Start, Woken} && !s.broadcaster.Copying?
    case Spurious(i) => i < |s.senders| && s.senders[i].phase.Blocked?
    case EndPass(i) => i < |s.senders| && s.senders[i].phase.Passing?
  }

  function Wake(x: Sender): Sender {
    if x.phase.Blocked? then x.(phase := Woken) else x
  }

  /** A sender with the mutex: it waits when its last index equals the write index, and otherwise
      takes index and size. */
  function LookAt(s: State, x: Sender): Sender
    requires Shape(s)
  {
    if x.last == s.writeIndex then x.(phase := Blocked)
    else Sender(Passing, s.writeIndex, s.sizes[s.writeIndex], x.taken + [|s.chunks|])
  }

  function Step(s: State, e: Event): (t: State)
    requires Shape(s) && Enabled(s, e)
    ensures Shape(t)
  {
    match e
    case Acquire(data) =>
      s.(writeIndex := (s.writeIndex + 1) % SLOTS, broadcaster := Copying(data, 0), chunks := s.chunks + [data])
    case CopyByte =>
      var b := s.broadcaster;
      s.(slots := s.slots[s.writeIndex := s.slots[s.writeIndex][b.done := b.chunk[b.done]]],
         broadcaster := b.(done := b.done + 1))
    case Release =>
      s.(sizes := s.sizes[s.writeIndex := |s.broadcaster.chunk|], broadcaster := Signalling)
    case Signal =>
      s.(broadcaster := Reading, senders := seq(|s.senders|, i requires 0 <= i < |s.senders| => Wake(s.senders[i])))
    case Look(i) => s.(senders := s.senders[i := LookAt(s, s.senders[i])])
    case Spurious(i) => s.(senders := s.senders[i := s.senders[i].(phase := Woken)])
    case EndPass(i) => s.(senders := s.senders[i := s.senders[i].(phase := Start)])
  }

  /** The state after a run, or None if some event was not enabled when it came. */
  function Run(s: State, events: seq<Event>): (r: Option<State>)
    requires Shape(s)
    ensures r.Some? ==> Shape(r.value)
    decreases |events|
  {
    if events == [] then Some(s)
    else if Enabled(s, events[0]) then Run(Step(s, events[0]), events[1..])
    else None
  }

  lemma {:induction false} RunConcat(s: State, a: seq<Event>, b: seq<Event>)
    requires Shape(s)
    ensures Run(s, a + b) ==
      match Run(s, a) case None => None case Some(t) => Run(t, b)
    decreases |a|
  {
    if a == [] {
      assert a + b == b;
    } else {
      assert (a + b)[0] == a[0] && (a + b)[1..] == a[1..] + b;
      if Enabled(s, a[0]) { RunConcat(Step(s, a[0]), a[1..], b); }
    }
  }

  lemma RunSnoc(s: State, a: seq<Event>, t: State, e: Event)
    requires Shape(s) && Run(s, a) == Some(t) && Enabled(t, e)
    ensures Run(s, a + [e]) == Some(Step(t, e))
  {
    RunConcat(s, a, [e]);
    assert [e][1..] == [];
    assert Run(t, [e]) == Run(Step(t, e), []);
  }

  // ---------------------------------------------------------------------------------------------
  // The invariant

  /** Chunk number k; number 0 stands for the empty slot every sender may meet before the first
      broadcast. */
  function Chunk(chunks: seq<seq<byte>>, k: int): seq<byte> {
    if 1 <= k <= |chunks| then chunks[k - 1] else []
  }

  /** The largest number at most n that is congruent to j modulo 64. */
  function Newest(n: nat, j: nat): (k: int)
    ensures k <= n && n - k < SLOTS && (k - j) % SLOTS == 0
    ensures n % SLOTS == j ==> k == n
  {
    n - (n - j) % SLOTS
  }

  predicate Increasing(xs: seq<nat>) {
    forall a, b | 0 <= a < b < |xs| :: xs[a] < xs[b]
  }

  predicate SlotHolds(s: State, j: nat, c: seq<byte>)
    requires Shape(s) && j < SLOTS
  {
    |c| <= BUFFER_SIZE && s.sizes[j] == |c| && s.slots[j][..|c|] == c
  }

  predicate BroadcasterInv(s: State) {
    && Shape(s)
    && s.writeIndex == |s.chunks| % SLOTS
    && (forall k | 0 <= k < |s.chunks| :: 0 < |s.chunks[k]| <= BUFFER_SIZE)
    && (s.broadcaster.Copying? ==>
        && s.chunks != [] && s.broadcaster.chunk == s.chunks[|s.chunks| - 1]
        && s.slots[s.writeIndex][..s.broadcaster.done] == s.broadcaster.chunk[..s.broadcaster.done])
  }

  /** Every slot except the one being copied into holds the newest chunk of its residue class. */
  predicate SlotsInv(s: State)
    requires Shape(s)
  {
    forall j: nat | j < SLOTS && !(s.broadcaster.Copying? && j == s.writeIndex) ::
      SlotHolds(s, j, Chunk(s.chunks, Newest(|s.chunks|, j)))
  }

  predicate SenderInv(s: State, x: Sender) {
    && Increasing(x.taken)
    && (x.taken == [] ==> x.last == -1 && !x.phase.Passing? && !x.phase.Blocked?)
    && (x.taken != [] ==>
        var snap := x.taken[|x.taken| - 1];
        && snap <= |s.chunks| && x.last == snap % SLOTS
        && (s.broadcaster.Copying? ==> snap < |s.chunks|)
        && x.size == |Chunk(s.chunks, snap)|)
    && (x.phase.Blocked? && x.last != s.writeIndex ==> !s.broadcaster.Reading?)
  }

  ghost predicate Inv(s: State) {
    && BroadcasterInv(s) && SlotsInv(s)
    && forall i | 0 <= i < NUM_SENDERS :: SenderInv(s, s.senders[i])
  }

  lemma InitialInv()
    ensures Shape(Initial()) && Inv(Initial())
  {
  }

  lemma NextIndex(n: nat)
    ensures (n % SLOTS + 1) % SLOTS == (n + 1) % SLOTS
  {
  }

  /** A remainder of 0 is a number's own. */
  lemma Congruent(n: nat, j: nat)
    requires j < SLOTS
    ensures n % SLOTS == j <==> (n - j) % SLOTS == 0
  {
    var q, r := n / SLOTS, n % SLOTS;
    assert n - j == SLOTS * q + (r - j);
  }

  lemma NextRemainder(x: int)
    ensures (x + 1) % SLOTS == if x % SLOTS == SLOTS - 1 then 0 else x % SLOTS + 1
  {
  }

  lemma NewestNext(n: nat, j: nat)
    requires j < SLOTS
    ensures Newest(n + 1, j) == if (n + 1) % SLOTS == j then n + 1 else Newest(n, j)
  {
    Congruent(n + 1, j);
    NextRemainder(n - j);
  }

  lemma NewestIsSnapshot(n: nat, snap: nat)
    requires snap <= n
    ensures Newest(n, snap % SLOTS) == snap <==> n - snap < SLOTS
  {
  }

  lemma AcquireKeepsInv(s: State, data: seq<byte>)
    requires Inv(s) && Enabled(s, Acquire(data))
    ensures Inv(Step(s, Acquire(data)))
  {
    hide Newest;
    var t, n := Step(s, Acquire(data)), |s.chunks|;
    NextIndex(n);
    forall j: nat | j < SLOTS && j != t.writeIndex
      ensures SlotHolds(t, j, Chunk(t.chunks, Newest(|t.chunks|, j)))
    {
      NewestNext(n, j);
      assert SlotHolds(s, j, Chunk(s.chunks, Newest(n, j)));
    }
    forall i | 0 <= i < NUM_SENDERS ensures SenderInv(t, t.senders[i]) {
      assert SenderInv(s, s.senders[i]);
    }
  }

  lemma CopyByteKeepsInv(s: State)
    requires Inv(s) && Enabled(s, CopyByte)
    ensures Inv(Step(s, CopyByte))
  {
  }

  lemma ReleaseKeepsInv(s: State)
    requires Inv(s) && Enabled(s, Release)
    ensures Inv(Step(s, Release))
  {
  }

  lemma SenderEventKeepsInv(s: State, e: Event)
    requires Inv(s) && Enabled(s, e) && (e.Signal? || e.Look? || e.Spurious? || e.EndPass?)
    ensures Inv(Step(s, e))
  {
    var t := Step(s, e);
    forall j: nat | j < SLOTS && !(t.broadcaster.Copying? && j == t.writeIndex)
      ensures SlotHolds(t, j, Chunk(t.chunks, Newest(|t.chunks|, j)))
    {
      assert SlotHolds(s, j, Chunk(s.chunks, Newest(|s.chunks|, j)));
    }
    forall i | 0 <= i < NUM_SENDERS ensures SenderInv(t, t.senders[i]) {
      assert SenderInv(s, s.senders[i]);
      if e == Look(i) { LookKeepsInv(s, s.senders[i]); }
    }
  }

  /** The heart of the protocol: a snapshot is always of a strictly newer broadcast. */
  lemma LookKeepsInv(s: State, x: Sender)
    requires Inv(s) && SenderInv(s, x) && !s.broadcaster.Copying? && x.phase in {Start, Woken}
    ensures SenderInv(s, LookAt(s, x))
  {
    var n := |s.chunks|;
    assert SlotHolds(s, s.writeIndex, Chunk(s.chunks, Newest(n, s.writeIndex)));
    if x.last != s.writeIndex && x.taken != [] {
      assert x.taken[|x.taken| - 1] < n;
    }
  }

  lemma StepKeepsInv(s: State, e: Event)
    requires Inv(s) && Enabled(s, e)
    ensures Inv(Step(s, e))
  {
    match e
    case Acquire(data) => AcquireKeepsInv(s, data);
    case CopyByte => CopyByteKeepsInv(s);
    case Release => ReleaseKeepsInv(s);
    case _ => SenderEventKeepsInv(s, e);
  }

  lemma {:induction false} RunKeepsInv(s: State, events: seq<Event>)
    requires Inv(s)
    ensures Run(s, events).Some? ==> Inv(Run(s, events).value)
    decreases |events|
  {
    if events == [] {
    } else if Enabled(s, events[0]) {
      StepKeepsInv(s, events[0]);
      RunKeepsInv(Step(s, events[0]), events[1..]);
    }
  }

  // ---------------------------------------------------------------------------------------------
  // What every reachable state satisfies

  /** The states reachable by some interleaving of broadcaster and senders. */
  ghost predicate Reachable(s: State) {
    exists events: seq<Event> :: Run(Initial(), events) == Some(s)
  }

  lemma ReachableInv(s: State)
    requires Reachable(s)
    ensures Shape(s) && Inv(s)
  {
    InitialInv();
    var events: seq<Event> :| Run(Initial(), events) == Some(s);
    RunKeepsInv(Initial(), events);
  }

  /** After n broadcasts the write index is n mod 64 and each of the last min(n, 64) chunks is
      intact in its slot with its size, except that while chunk n is being copied its slot holds
      neither chunk n yet nor chunk n - 64 any more. */
  lemma RingIntact(s: State, k: nat)
    requires Reachable(s)
    requires 1 <= k <= |s.chunks| < k + 64
    requires s.broadcaster.Copying? ==> k < |s.chunks|
    ensures Shape(s) && s.writeIndex == |s.chunks| % 64
    ensures SlotHolds(s, k % 64, s.chunks[k - 1])
  {
    ReachableInv(s);
    var n, j := |s.chunks|, k % SLOTS;
    NewestIsSnapshot(n, k);
    hide Newest;
    assert SlotHolds(s, j, Chunk(s.chunks, Newest(n, j)));
  }

  /** What a pass reads.  Sender i, holding a snapshot of broadcast `snap`, reads `size` bytes of
      its slot.  If fewer than 64 broadcasts have begun since, every byte is the byte of chunk
      `snap`; and outside a copy into that very slot, the slot holds chunk `snap` and not another
      exactly while fewer than 64 broadcasts have begun. */
  lemma PassReadsSnapshot(s: State, i: nat)
    requires Reachable(s) && i < NUM_SENDERS && i < |s.senders| && s.senders[i].phase.Passing?
    ensures Shape(s) && s.senders[i].taken != [] && 0 <= s.senders[i].last < SLOTS
    ensures var x := s.senders[i];
            var snap, n := x.taken[|x.taken| - 1], |s.chunks|;
            && snap <= n
            && x.size == |Chunk(s.chunks, snap)| <= 4096
            && (n - snap < 64 ==> s.slots[x.last][..x.size] == Chunk(s.chunks, snap))
            && (!(s.broadcaster.Copying? && x.last == s.writeIndex) ==>
                && SlotHolds(s, x.last, Chunk(s.chunks, Newest(n, x.last)))
                && (Newest(n, x.last) == snap <==> n - snap < 64))
  {
    ReachableInv(s);
    var x := s.senders[i];
    assert SenderInv(s, x);
    var snap, n := x.taken[|x.taken| - 1], |s.chunks|;
    NewestIsSnapshot(n, snap);
    assert BroadcasterInv(s);
    if s.broadcaster.Copying? && x.last == s.writeIndex {
      assert n - snap >= SLOTS;
    } else {
      assert SlotHolds(s, x.last, Chunk(s.chunks, Newest(n, x.last)));
    }
  }

  /** Snapshot numbers of each sender strictly increase over every run. */
  lemma SnapshotsIncrease(s: State, i: nat, a: nat, b: nat)
    requires Reachable(s) && i < NUM_SENDERS && i < |s.senders| && a < b < |s.senders[i].taken|
    ensures s.senders[i].taken[a] < s.senders[i].taken[b] <= |s.chunks|
  {
    ReachableInv(s);
    assert SenderInv(s, s.senders[i]);
  }

  /** No lost wake-up: a sender that is blocked although its last index differs from the write
      index finds the broadcaster between its index update and its broadcast of the condition; and
      once that broadcast has happened nobody is blocked any more. */
  lemma NoLostWakeup(s: State, i: nat)
    requires Reachable(s) && i < NUM_SENDERS && i < |s.senders| && s.senders[i].phase.Blocked?
    ensures s.senders[i].last != s.writeIndex ==> s.broadcaster.Copying? || s.broadcaster.Signalling?
    ensures Shape(s)
    ensures Enabled(s, Signal) ==> forall j | 0 <= j < NUM_SENDERS :: !Step(s, Signal).senders[j].phase.Blocked?
  {
    ReachableInv(s);
    assert SenderInv(s, s.senders[i]);
  }

  lemma SameRemainder(n: nat, m: nat)
    requires m <= n
    ensures n % SLOTS == m % SLOTS <==> (n - m) % SLOTS == 0
  {
    var a, b, q := n / SLOTS, m / SLOTS, n % SLOTS - m % SLOTS;
    assert n - m == SLOTS * (a - b) + q;
  }

  /** Exactly when a sender goes (back) to sleep: it has taken a snapshot before, and the number of
      broadcasts since is a multiple of 64.  In particular a sender lapped by exactly 64 broadcasts
      sleeps through them. */
  lemma SleepsExactly(s: State, i: nat)
    requires Reachable(s) && i < |s.senders| && Enabled(s, Look(i))
    ensures Shape(s) && i < NUM_SENDERS
    ensures Step(s, Look(i)).senders[i].phase.Blocked? <==>
      s.senders[i].taken != []
      && (|s.chunks| - s.senders[i].taken[|s.senders[i].taken| - 1]) % 64 == 0
  {
    ReachableInv(s);
    var x := s.senders[i];
    assert SenderInv(s, x) && s.writeIndex == |s.chunks| % SLOTS;
    hide Reachable, Inv, Increasing;
    if x.taken != [] { SameRemainder(|s.chunks|, x.taken[|x.taken| - 1]); }
  }

  /** A pass sends a zero-length chunk, which ends a chunked stream, exactly when its snapshot was
      taken before the first broadcast. */
  lemma ZeroChunkOnlyFirst(s: State, i: nat)
    requires Reachable(s) && i < NUM_SENDERS && i < |s.senders| && s.senders[i].phase.Passing?
    ensures s.senders[i].taken != []
    ensures s.senders[i].size == 0 <==> s.senders[i].taken[|s.senders[i].taken| - 1] == 0
  {
    ReachableInv(s);
    assert SenderInv(s, s.senders[i]);
    assert BroadcasterInv(s);
  }
}
