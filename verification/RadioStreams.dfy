/** What a listener reads: the chunks of its sender's passes, by the ring, in the chunked coding. */
module RadioStreams {
  import opened Common
  import opened ChunkedReply
  import opened RadioRing
  import RadioRuns

  /** The chunks of the snapshots of sender i from its pass `first` on: what a listener whose first
      pass that is is sent if no pass is lapped. */
  function Heard(s: State, i: nat, first: nat): seq<seq<byte>>
    requires i < |s.senders| && first <= |s.senders[i].taken|
  {
    var taken := s.senders[i].taken;
    seq(|taken| - first, j requires 0 <= j < |taken| - first => Chunk(s.chunks, taken[first + j]))
  }

  /** Only a snapshot that precedes the first broadcast is of an empty chunk, and only a sender's
      first one can be. */
  lemma HeardEmpty(s: State, i: nat, first: nat)
    requires Reachable(s) && i < NUM_SENDERS && i < |s.senders| && first <= |s.senders[i].taken|
    ensures [] in Heard(s, i, first) <==> first == 0 < |s.senders[i].taken| && s.senders[i].taken[0] == 0
  {
    ReachableInv(s);
    assert SenderInv(s, s.senders[i]) && BroadcasterInv(s);
    var taken, heard := s.senders[i].taken, Heard(s, i, first);
    assert forall k | 0 <= k < |s.chunks| :: |s.chunks[k]| > 0;
    hide Inv, Reachable, Shape;
    forall j: nat | j < |heard| ensures heard[j] == [] <==> taken[first + j] == 0 {
      var k := taken[first + j];
      assert k <= taken[|taken| - 1] <= |s.chunks|;
      assert heard[j] == Chunk(s.chunks, k) && (k > 0 ==> |s.chunks[k - 1]| > 0);
    }
    if first == 0 < |taken| && taken[0] == 0 { assert heard[0] == []; }
    assert forall j: nat | 0 < j < |taken| :: taken[0] < taken[j];
  }

  /** `sent` are chunks of the sizes that these passes announce, whatever octets they hold. */
  predicate Announced(s: State, i: nat, first: nat, sent: seq<seq<byte>>)
    requires i < |s.senders| && first <= |s.senders[i].taken|
  {
    && |sent| == |s.senders[i].taken| - first
    && forall j | 0 <= j < |sent| :: |sent[j]| == |Heard(s, i, first)[j]|
  }

  lemma SameEmpty(s: State, i: nat, first: nat, sent: seq<seq<byte>>)
    requires i < |s.senders| && first <= |s.senders[i].taken| && Announced(s, i, first, sent)
    ensures [] in sent <==> [] in Heard(s, i, first)
  {
    var heard := Heard(s, i, first);
    assert |heard| == |sent|;
    hide Heard;
    assert forall j | 0 <= j < |sent| :: sent[j] == [] <==> heard[j] == [];
  }

  /** A listener of sender i, with complete sends, reads all that it is sent and goes on reading if
      and only if its first pass is not one whose snapshot precedes the first broadcast; also where
      passes are lapped, so that the slot holds other octets than the snapshot's, under its size. */
  lemma ListenerReads(s: State, i: nat, first: nat, sent: seq<seq<byte>>, tail: seq<byte>)
    requires Reachable(s) && i < NUM_SENDERS && i < |s.senders| && first <= |s.senders[i].taken|
    requires Announced(s, i, first, sent) && DecodeBody(tail).Some?
    ensures DecodeBody(RadioStream(sent) + tail) ==
              Some((Flatten(sent) + DecodeBody(tail).value.0, DecodeBody(tail).value.1))
            <==> !(first == 0 < |s.senders[i].taken| && s.senders[i].taken[0] == 0)
  {
    hide DecodeBody, RadioStream, Heard, Announced;
    HeardEmpty(s, i, first);
    SameEmpty(s, i, first, sent);
    RadioDecodesExactly(sent, tail);
  }

  /** And there are such listeners: one that is registered before sender 0 looks for the first time,
      before the first broadcast.  Its stream has ended before any sound. */
  lemma EarlyListener(rest: seq<byte>) returns (s: State)
    ensures Reachable(s) && Shape(s) && s.senders[0].taken == [0] && Heard(s, 0, 0) == [[]]
    ensures DecodeBody(RadioStream(Heard(s, 0, 0)) + rest) == Some(([], rest))
  {
    InitialInv();
    assert Run(Initial(), []) == Some(Initial()) && Reachable(Initial());
    s := Step(Initial(), Look(0));
    RadioRuns.ReachableStep(Initial(), Look(0));
    var heard := Heard(s, 0, 0);
    assert |heard| == 1 && heard[0] == Chunk(s.chunks, 0) == [];
    assert heard == [[]];
    hide DecodeBody, Reachable;
    RadioEndsAt([[]], 0, rest);
    assert RadioStream([[]][1..]) + rest == rest;
  }

  // ---------------------------------------------------------------------------------------------
  // What passes send

  /** One pass: the state with its snapshot, the events until it has sent its chunk, and the octets
      sent, each read from the slot at some moment in between. */
  datatype Pass = Pass(start: State, events: seq<Event>, data: seq<byte>)

  /** Octet q of slot j. */
  function OctetAt(t: State, j: int, q: nat): byte
    requires Shape(t) && 0 <= j < SLOTS && q < BUFFER_SIZE
  {
    t.slots[j][q]
  }

  ghost predicate IsPass(p: Pass, i: nat) {
    && i < NUM_SENDERS && Reachable(p.start) && Shape(p.start)
    && p.start.senders[i].phase.Passing? && p.start.senders[i].taken != []
    && Run(p.start, p.events).Some? && EndPass(i) !in p.events
    && var x := p.start.senders[i];
       && 0 <= x.last < SLOTS && |p.data| == x.size <= BUFFER_SIZE
       && forall q: nat | q < |p.data| :: ReadAt(p, x.last, q)
  }

  ghost predicate ReadAt(p: Pass, j: int, q: nat)
    requires Shape(p.start) && 0 <= j < SLOTS && q < |p.data| && q < BUFFER_SIZE
  {
    exists k: nat :: k <= |p.events| && Run(p.start, p.events[..k]).Some?
                     && p.data[q] == OctetAt(Run(p.start, p.events[..k]).value, j, q)
  }

  /** The number of the broadcast whose chunk the pass is to send. */
  function Snapshot(p: Pass, i: nat): nat
    requires i < |p.start.senders| && p.start.senders[i].taken != []
  {
    p.start.senders[i].taken[|p.start.senders[i].taken| - 1]
  }

  /** 64 broadcasts have begun between the snapshot and the end of the pass. */
  ghost predicate Lapped(p: Pass, i: nat)
    requires IsPass(p, i)
  {
    |Run(p.start, p.events).value.chunks| - Snapshot(p, i) >= SLOTS
  }

  /** A pass sends as many octets as its snapshot's chunk has, and exactly that chunk if it is not lapped. */
  lemma PassSends(p: Pass, i: nat)
    requires IsPass(p, i)
    ensures |p.data| == |Chunk(p.start.chunks, Snapshot(p, i))|
    ensures |Run(p.start, p.events).value.chunks| < Snapshot(p, i) + 64 ==>
              p.data == Chunk(p.start.chunks, Snapshot(p, i))
  {
    hide Reachable, Run;
    PassReadsSnapshot(p.start, i);
    var x, chunk := p.start.senders[i], Chunk(p.start.chunks, Snapshot(p, i));
    if !Lapped(p, i) {
      forall q: nat | q < |p.data| ensures p.data[q] == chunk[q] {
        assert ReadAt(p, x.last, q);
        var k: nat :| k <= |p.events| && Run(p.start, p.events[..k]).Some?
                      && p.data[q] == OctetAt(Run(p.start, p.events[..k]).value, x.last, q);
        RadioRuns.WholePassReadsSnapshot(p.start, i, p.events, k);
        var t := Run(p.start, p.events[..k]).value;
        assert t.slots[x.last][q] == t.slots[x.last][..x.size][q];
      }
    }
  }

  /** The state s is reached from the pass, which is pass number j of its sender. */
  ghost predicate PassOf(p: Pass, i: nat, j: nat, s: State) {
    && IsPass(p, i) && |p.start.senders[i].taken| == j + 1
    && exists later: seq<Event> :: Run(p.start, later) == Some(s)
  }

  /** Snapshots are never taken back. */
  lemma {:induction false} TakenGrow(s: State, events: seq<Event>, i: nat)
    requires Shape(s) && i < NUM_SENDERS
    ensures Run(s, events).Some? ==> s.senders[i].taken <= Run(s, events).value.senders[i].taken
    decreases |events|
  {
    if events == [] {
    } else if Enabled(s, events[0]) {
      TakenGrow(Step(s, events[0]), events[1..], i);
    }
  }

  lemma PassInRun(p: Pass, i: nat, j: nat, s: State)
    requires PassOf(p, i, j, s)
    ensures i < |s.senders| && j < |s.senders[i].taken| && Snapshot(p, i) == s.senders[i].taken[j]
    ensures Chunk(p.start.chunks, Snapshot(p, i)) == Chunk(s.chunks, s.senders[i].taken[j])
  {
    hide Reachable, Run;
    var later: seq<Event> :| Run(p.start, later) == Some(s);
    TakenGrow(p.start, later, i);
    RadioRuns.ChunksGrow(p.start, later);
    PassReadsSnapshot(p.start, i);
  }

  /** The octets that successive passes send have the announced sizes; and where no pass is lapped,
      they are the chunks of the broadcasts. */
  lemma PassesSend(passes: seq<Pass>, i: nat, first: nat, s: State, sent: seq<seq<byte>>)
    requires i < |s.senders| && |passes| == |sent| && first + |passes| == |s.senders[i].taken|
    requires forall j | 0 <= j < |passes| :: PassOf(passes[j], i, first + j, s) && sent[j] == passes[j].data
    ensures Announced(s, i, first, sent)
    ensures (forall j | 0 <= j < |passes| :: IsPass(passes[j], i) && !Lapped(passes[j], i)) ==>
              sent == Heard(s, i, first)
  {
    var heard := Heard(s, i, first);
    hide PassOf, IsPass, Snapshot, Lapped;
    forall j | 0 <= j < |passes|
      ensures |sent[j]| == |heard[j]| && (IsPass(passes[j], i) && !Lapped(passes[j], i) ==> sent[j] == heard[j])
    {
      PassSent(passes[j], i, first + j, s);
      assert heard[j] == Chunk(s.chunks, s.senders[i].taken[first + j]);
    }
  }

  lemma PassSent(p: Pass, i: nat, j: nat, s: State)
    requires PassOf(p, i, j, s)
    ensures IsPass(p, i) && i < |s.senders| && j < |s.senders[i].taken|
    ensures var chunk := Chunk(s.chunks, s.senders[i].taken[j]);
            |p.data| == |chunk| && (!Lapped(p, i) ==> p.data == chunk)
  {
    PassInRun(p, i, j, s);
    PassSends(p, i);
  }
}
