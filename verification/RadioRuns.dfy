/** Statements about whole runs of the ring: a pass from its snapshot to its end, and being lapped. */
module RadioRuns {
  import opened Common
  import opened RadioRing

  lemma ReachableStep(s: State, e: Event)
    requires Reachable(s) && Shape(s) && Enabled(s, e)
    ensures Reachable(Step(s, e))
  {
    var events: seq<Event> :| Run(Initial(), events) == Some(s);
    RunSnoc(Initial(), events, s, e);
  }

  /** A step leaves a passing sender alone unless it ends the pass, and takes back no broadcast. */
  lemma PassUndisturbed(s: State, i: nat, e: Event)
    requires Shape(s) && i < NUM_SENDERS && s.senders[i].phase.Passing? && Enabled(s, e) && e != EndPass(i)
    ensures Step(s, e).senders[i] == s.senders[i] && s.chunks <= Step(s, e).chunks
  {
  }

  lemma {:induction false} ChunksGrow(s: State, events: seq<Event>)
    requires Shape(s)
    ensures Run(s, events).Some? ==> s.chunks <= Run(s, events).value.chunks
    decreases |events|
  {
    if events == [] {
    } else if Enabled(s, events[0]) {
      ChunksGrow(Step(s, events[0]), events[1..]);
    }
  }

  lemma {:induction false} PassKept(s: State, i: nat, events: seq<Event>)
    requires Reachable(s) && Shape(s) && i < NUM_SENDERS && s.senders[i].phase.Passing?
    requires Run(s, events).Some? && EndPass(i) !in events
    ensures var t := Run(s, events).value;
            Reachable(t) && t.senders[i] == s.senders[i] && s.chunks <= t.chunks
    decreases |events|
  {
    hide Reachable;
    if events == [] {
    } else {
      var e := events[0];
      assert e in events && forall f | f in events[1..] :: f in events;
      PassUndisturbed(s, i, e);
      ReachableStep(s, e);
      hide Step, Enabled;
      PassKept(Step(s, e), i, events[1..]);
    }
  }

  /** The slot of a pass still holds its chunk in a later state. */
  lemma SnapshotStays(s: State, t: State, i: nat)
    requires Reachable(s) && Reachable(t) && Shape(s) && Shape(t) && i < NUM_SENDERS && t.senders[i] == s.senders[i]
    requires s.senders[i].phase.Passing? && s.senders[i].taken != [] && s.chunks <= t.chunks
    requires |t.chunks| - s.senders[i].taken[|s.senders[i].taken| - 1] < 64
    ensures var x := s.senders[i];
            && 0 <= x.last < SLOTS && x.size <= BUFFER_SIZE
            && t.slots[x.last][..x.size] == Chunk(s.chunks, x.taken[|x.taken| - 1])
  {
    hide Newest, Reachable, SlotHolds;
    PassReadsSnapshot(s, i);
    PassReadsSnapshot(t, i);
  }

  /** A whole pass.  From the state s in which sender i has its snapshot, let any events happen
      before the pass ends.  If fewer than 64 broadcasts have begun since the snapshot by then, the
      sender's slot holds the chunk of the snapshot after every single one of these events, so all
      the pass reads, whenever it reads it, is that chunk. */
  lemma WholePassReadsSnapshot(s: State, i: nat, events: seq<Event>, k: nat)
    requires Reachable(s) && Shape(s) && i < NUM_SENDERS && s.senders[i].phase.Passing? && s.senders[i].taken != []
    requires Run(s, events).Some? && EndPass(i) !in events && k <= |events|
    requires |Run(s, events).value.chunks| - s.senders[i].taken[|s.senders[i].taken| - 1] < 64
    ensures Run(s, events[..k]).Some?
    ensures var x, t := s.senders[i], Run(s, events[..k]).value;
            && t.senders[i] == x && 0 <= x.last < SLOTS && x.size <= BUFFER_SIZE
            && t.slots[x.last][..x.size] == Chunk(s.chunks, x.taken[|x.taken| - 1])
  {
    hide Run, Reachable;
    assert events == events[..k] + events[k..];
    assert forall e | e in events[..k] :: e in events;
    RunConcat(s, events[..k], events[k..]);
    PassKept(s, i, events[..k]);
    var t := Run(s, events[..k]).value;
    ChunksGrow(t, events[k..]);
    SnapshotStays(s, t, i);
  }

  // ---------------------------------------------------------------------------------------------
  // Being lapped

  /** One whole broadcast of a chunk of one octet. */
  const ROUND: seq<Event> := [Acquire([0]), CopyByte, Release, Signal]

  function Rounds(n: nat): seq<Event> {
    if n == 0 then [] else Rounds(n - 1) + ROUND
  }

  lemma OneRound(s: State)
    requires Shape(s) && s.broadcaster.Reading?
    ensures var r := Run(s, ROUND);
            && r.Some? && r.value.broadcaster.Reading? && r.value.chunks == s.chunks + [[0]]
            && forall i | 0 <= i < NUM_SENDERS && s.senders[i].phase.Start? :: r.value.senders[i] == s.senders[i]
  {
    var t1 := Step(s, ROUND[0]);
    var t2 := Step(t1, ROUND[1]);
    var t3 := Step(t2, ROUND[2]);
    assert ROUND[1..][1..] == ROUND[2..] && ROUND[2..][1..] == ROUND[3..] && ROUND[3..][1..] == [];
    assert Run(t3, ROUND[3..]) == Run(Step(t3, Signal), []);
    assert Run(t2, ROUND[2..]) == Run(t3, ROUND[3..]);
    assert Run(t1, ROUND[1..]) == Run(t2, ROUND[2..]);
  }

  lemma {:induction false} ManyRounds(s: State, n: nat)
    requires Shape(s) && s.broadcaster.Reading?
    ensures var r := Run(s, Rounds(n));
            && r.Some? && r.value.broadcaster.Reading? && |r.value.chunks| == |s.chunks| + n
            && forall i | 0 <= i < NUM_SENDERS && s.senders[i].phase.Start? :: r.value.senders[i] == s.senders[i]
  {
    if n == 0 {
    } else {
      ManyRounds(s, n - 1);
      var t := Run(s, Rounds(n - 1)).value;
      OneRound(t);
      RunConcat(s, Rounds(n - 1), ROUND);
    }
  }

  lemma ReachableRun(s: State, events: seq<Event>)
    requires Reachable(s) && Shape(s) && Run(s, events).Some?
    ensures Reachable(Run(s, events).value)
  {
    var before: seq<Event> :| Run(Initial(), before) == Some(s);
    RunConcat(Initial(), before, events);
  }

  /** How many more make a positive multiple of 64. */
  function Missing(gap: nat): (n: nat)
    ensures 0 < n <= 64 && (gap + n) % 64 == 0
  {
    SLOTS - gap % SLOTS
  }

  /** Being lapped happens: from every reachable state in which a sender with a snapshot is about to
      look and no broadcast is under way, between 1 and 64 broadcasts make it go to sleep although
      they are waiting for it. */
  lemma LappedSenderSleeps(s: State, i: nat) returns (t: State)
    requires Reachable(s) && i < NUM_SENDERS && i < |s.senders|
    requires s.broadcaster.Reading? && s.senders[i].phase.Start? && s.senders[i].taken != []
    ensures Reachable(t) && Shape(t) && t.senders[i] == s.senders[i]
    ensures |s.chunks| < |t.chunks| <= |s.chunks| + 64
    ensures Enabled(t, Look(i)) && Step(t, Look(i)).senders[i].phase.Blocked?
  {
    ReachableInv(s);
    assert SenderInv(s, s.senders[i]);
    var snap := s.senders[i].taken[|s.senders[i].taken| - 1];
    var n := Missing(|s.chunks| - snap);
    hide Inv, SenderInv, Reachable, Rounds, Missing;
    ManyRounds(s, n);
    ReachableRun(s, Rounds(n));
    t := Run(s, Rounds(n)).value;
    SleepsExactly(t, i);
  }

  /** Sender 0 has looked once, before the first broadcast, and has ended its pass. */
  lemma FirstLook() returns (s: State)
    ensures Reachable(s) && Shape(s) && s.broadcaster.Reading? && s.chunks == []
    ensures s.senders[0] == Sender(Start, 0, 0, [0])
  {
    InitialInv();
    assert Run(Initial(), []) == Some(Initial()) && Reachable(Initial());
    hide Reachable, Inv;
    var looked := Step(Initial(), Look(0));
    ReachableStep(Initial(), Look(0));
    ReachableStep(looked, EndPass(0));
    s := Step(looked, EndPass(0));
  }

  /** So it happens in a run: 64 broadcasts after its first look, sender 0 sleeps through all of them. */
  lemma LapHappens() returns (t: State)
    ensures Reachable(t) && Shape(t) && t.senders[0].taken == [0] && |t.chunks| == 64
    ensures Enabled(t, Look(0)) && Step(t, Look(0)).senders[0].phase.Blocked?
  {
    hide Reachable, Step;
    var s := FirstLook();
    t := LappedSenderSleeps(s, 0);
    SleepsExactly(t, 0);
  }
}
