/**
 * The broadcaster's critical section on the shared arrays, in place: each assignment is one step
 * of the protocol in `RadioRing`.
 */
module RadioThreads {
  import opened Common
  import opened RadioRing

  /** The events of one whole critical section that publishes `data`. */
  function PublishEvents(data: seq<byte>): seq<Event> {
    [Acquire(data)] + seq(|data|, _ => CopyByte) + [Release]
  }

  class BroadcastRing {
    const slots: array2<byte>
    const sizes: array<nat>
    var writeIndex: nat

    /** The shared memory is the memory of protocol state `s`. */
    ghost predicate Matches(s: State)
      reads this, slots, sizes
    {
      && Shape(s) && slots.Length0 == SLOTS && slots.Length1 == BUFFER_SIZE && sizes.Length == SLOTS
      && writeIndex == s.writeIndex && sizes[..] == s.sizes
      && forall j, i | 0 <= j < SLOTS && 0 <= i < BUFFER_SIZE :: slots[j, i] == s.slots[j][i]
    }

    constructor ()
      ensures Matches(Initial())
      ensures fresh(slots) && fresh(sizes)
    {
      slots := new byte[SLOTS, BUFFER_SIZE]((_, _) => 0);
      sizes := new nat[SLOTS](_ => 0);
      writeIndex := 0;
    }

    /** Lines between lock and unlock of `broadcast_thread_function`: the memory goes through
        exactly the steps of `PublishEvents`, one per byte copied. */
    method Publish(local: seq<byte>, ghost s: State) returns (ghost t: State)
      requires Matches(s) && s.broadcaster.Reading? && 0 < |local| <= BUFFER_SIZE
      modifies this, slots, sizes
      ensures Run(s, PublishEvents(local)) == Some(t) && Matches(t)
      ensures t.broadcaster == Signalling && t.chunks == s.chunks + [local]
    {
      ghost var copies := seq(0, _ => CopyByte);
      writeIndex := (writeIndex + 1) % SLOTS;
      t := Step(s, Acquire(local));
      assert Run(s, [Acquire(local)]) == Some(t) by {
        RunSnoc(s, [], s, Acquire(local));
        assert [] + [Acquire(local)] == [Acquire(local)];
      }
      assert [Acquire(local)] + copies == [Acquire(local)];
      for i := 0 to |local|
        invariant Matches(t) && t.broadcaster == Copying(local, i) && t.chunks == s.chunks + [local]
        invariant copies == seq(i, _ => CopyByte)
        invariant Run(s, [Acquire(local)] + copies) == Some(t)
      {
        slots[writeIndex, i] := local[i];
        RunSnoc(s, [Acquire(local)] + copies, t, CopyByte);
        assert [Acquire(local)] + (copies + [CopyByte]) == ([Acquire(local)] + copies) + [CopyByte];
        t, copies := Step(t, CopyByte), copies + [CopyByte];
      }
      sizes[writeIndex] := |local|;
      RunSnoc(s, [Acquire(local)] + copies, t, Release);
      t := Step(t, Release);
    }

    /** What a sender does with the mutex held: sleep, or copy index and size. */
    method TakeSnapshot(last: int, ghost s: State, ghost x: Sender) returns (wait: bool, index: int, size: nat)
      requires Matches(s) && x.last == last
      ensures wait == LookAt(s, x).phase.Blocked? && index == LookAt(s, x).last
      ensures !wait ==> size == LookAt(s, x).size
    {
      if last == writeIndex {
        return true, last, 0;
      }
      assert sizes[..][writeIndex] == s.sizes[s.writeIndex];
      return false, writeIndex, sizes[writeIndex];
    }
  }
}
