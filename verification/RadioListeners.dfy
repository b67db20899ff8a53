/**
 * The twelve client lists over whole runs: the main thread hands every accepted listener to the
 * next sender in turn, senders drop the listeners that fail.
 */
module RadioListeners {
  import opened Common
  import opened RadioClients

  const NUM_SENDERS: nat := 12

  /** `given[i]` counts the listeners ever handed to sender i. */
  datatype State<T(==)> = State(
    lists: seq<seq<T>>,
    current: nat,
    given: seq<nat>,
    registered: set<T>,
    removed: set<T>     // those that a send has failed for, other than with EAGAIN
  )

  datatype Event<T(==)> =
    | Assign(client: T)                         // a freshly allocated client node
    | Refuse                                    // accept failed: header not sent, or no memory
    | Pass(thread: nat, res: seq<SendResult>)   // one pass of one sender

  function Initial<T(==)>(): State<T> {
    State(seq(NUM_SENDERS, _ => []), 0, seq(NUM_SENDERS, _ => 0), {}, {})
  }

  predicate Shape<T(==)>(s: State<T>) {
    |s.lists| == NUM_SENDERS && |s.given| == NUM_SENDERS && s.current < NUM_SENDERS
  }

  predicate Enabled<T(==)>(s: State<T>, e: Event<T>) {
    match e
    case Assign(c) => c !in s.registered
    case Refuse => true
    case Pass(t, res) => t < |s.lists| && |res| == |s.lists[t]|
  }

  function Elements<T(==)>(xs: seq<T>): set<T> {
    set x | x in xs
  }

  /** The clients whose sends failed hard in a pass. */
  function Failed<T(==)>(xs: seq<T>, res: seq<SendResult>): set<T>
    requires |res| == |xs|
  {
    set i | 0 <= i < |res| && res[i].Hard? :: xs[i]
  }

  function Step<T(==)>(s: State<T>, e: Event<T>): (s': State<T>)
    requires Shape(s) && Enabled(s, e)
    ensures Shape(s')
  {
    match e
    case Assign(c) =>
      State(s.lists[s.current := [c] + s.lists[s.current]],
            (s.current + 1) % NUM_SENDERS,
            s.given[s.current := s.given[s.current] + 1],
            s.registered + {c}, s.removed)
    case Refuse => s
    case Pass(t, res) =>
      s.(lists := s.lists[t := Survivors(s.lists[t], res)], removed := s.removed + Failed(s.lists[t], res))
  }

  function Run<T(==)>(s: State<T>, events: seq<Event<T>>): (r: Option<State<T>>)
    requires Shape(s)
    ensures r.Some? ==> Shape(r.value)
    decreases |events|
  {
    if events == [] then Some(s)
    else if Enabled(s, events[0]) then Run(Step(s, events[0]), events[1..])
    else None
  }

  /** No client is in two lists, or twice in one. */
  predicate Disjoint<T(==)>(lists: seq<seq<T>>) {
    && (forall i | 0 <= i < |lists| :: Distinct(lists[i]))
    && (forall i, j | 0 <= i < j < |lists| :: Elements(lists[i]) !! Elements(lists[j]))
  }

  predicate Listed<T(==)>(lists: seq<seq<T>>, x: T) {
    exists i | 0 <= i < |lists| :: x in lists[i]
  }

  ghost predicate Inv<T(!new)>(s: State<T>) {
    && Shape(s)
    && Disjoint(s.lists)
    && s.removed <= s.registered
    && (forall x :: Listed(s.lists, x) <==> x in s.registered && x !in s.removed)
    && (exists q: nat :: Balanced(s, q))
  }

  /** Round robin: the threads before the current one are one assignment ahead of the others. */
  predicate Balanced<T(==)>(s: State<T>, q: nat)
    requires Shape(s)
  {
    forall i | 0 <= i < NUM_SENDERS :: s.given[i] == if i < s.current then q + 1 else q
  }

  lemma AssignKeepsInv<T(!new)>(s: State<T>, c: T)
    requires Inv(s) && c !in s.registered
    ensures Inv(Step(s, Assign(c)))
  {
    var t, k := Step(s, Assign(c)), s.current;
    assert !Listed(s.lists, c);
    assert t.lists[k] == [c] + s.lists[k];
    assert Elements(t.lists[k]) == {c} + Elements(s.lists[k]);
    forall i, j | 0 <= i < j < NUM_SENDERS ensures Elements(t.lists[i]) !! Elements(t.lists[j]) {
      assert c !in s.lists[i] && c !in s.lists[j];
    }
    forall x ensures Listed(t.lists, x) <==> x in t.registered && x !in t.removed {
      if x == c { assert c in t.lists[k]; }
      else if Listed(s.lists, x) { var i :| 0 <= i < NUM_SENDERS && x in s.lists[i]; assert x in t.lists[i]; }
    }
    var q: nat :| Balanced(s, q);
    assert Balanced(t, if k + 1 == NUM_SENDERS then q + 1 else q);
  }

  /** A pass leaves in the list exactly the clients whose sends did not fail hard. */
  lemma PassSplits<T(!new)>(xs: seq<T>, res: seq<SendResult>, x: T)
    requires |res| == |xs| && Distinct(xs)
    ensures x in Survivors(xs, res) <==> x in xs && x !in Failed(xs, res)
    ensures x in Failed(xs, res) ==> x in xs
  {
    SurvivorsExact(xs, res, x);
  }

  lemma PassKeepsInv<T(!new)>(s: State<T>, k: nat, res: seq<SendResult>)
    requires Inv(s) && Enabled(s, Pass(k, res))
    ensures Inv(Step(s, Pass(k, res)))
  {
    var t := Step(s, Pass(k, res));
    var old', left := s.lists[k], t.lists[k];
    SurvivorsDistinct(old', res);
    forall x ensures (x in left <==> x in old' && x !in Failed(old', res)) && (x in Failed(old', res) ==> x in old') {
      PassSplits(old', res, x);
    }
    assert Elements(left) <= Elements(old');
    forall x ensures Listed(t.lists, x) <==> x in t.registered && x !in t.removed {
      if Listed(s.lists, x) {
        var i :| 0 <= i < NUM_SENDERS && x in s.lists[i];
        if i == k {
          assert forall j | 0 <= j < NUM_SENDERS && j != k :: x !in Elements(s.lists[j]);
          assert x in left <==> Listed(t.lists, x);
        } else {
          assert x !in Elements(old') && x in t.lists[i];
        }
      } else {
        assert x !in old' && !Listed(t.lists, x);
      }
    }
    var q: nat :| Balanced(s, q);
    assert Balanced(t, q);
  }

  lemma InitialInv<T(!new)>()
    ensures Inv(Initial<T>())
  {
    assert Balanced(Initial<T>(), 0);
  }

  lemma {:induction false} RunKeepsInv<T(!new)>(s: State<T>, events: seq<Event<T>>)
    requires Inv(s)
    ensures Run(s, events).Some? ==> Inv(Run(s, events).value)
    decreases |events|
  {
    if events == [] {
    } else if Enabled(s, events[0]) {
      match events[0] {
        case Assign(c) => AssignKeepsInv(s, c);
        case Refuse =>
        case Pass(k, res) => PassKeepsInv(s, k, res);
      }
      RunKeepsInv(Step(s, events[0]), events[1..]);
    }
  }

  /** Over every run of registrations and passes: the twelve lists are disjoint, together they hold
      exactly the registered listeners for whom no send has failed hard, and no thread was ever given
      more than one listener more than another. */
  lemma ListenersPartitioned<T(!new)>(events: seq<Event<T>>)
    ensures var r := Run(Initial<T>(), events);
            r.Some? ==>
              && |r.value.lists| == |r.value.given| == 12 && Disjoint(r.value.lists)
              && (forall x :: Listed(r.value.lists, x) <==> x in r.value.registered - r.value.removed)
              && (forall i, j | 0 <= i < 12 && 0 <= j < 12 ::
                  r.value.given[i] <= r.value.given[j] + 1)
  {
    InitialInv<T>();
    RunKeepsInv(Initial<T>(), events);
    var r := Run(Initial<T>(), events);
    if r.Some? {
      var q: nat :| Balanced(r.value, q);
    }
  }

  /** The main thread's side: the twelve contexts and the round-robin index, updated in place. */
  class RadioMain {
    const senders: seq<SenderContext>
    var current: nat

    ghost predicate Valid()
      reads this, senders, set x: SenderContext, c: RadioClient | x in senders && c in x.repr :: c
    {
      && |senders| == NUM_SENDERS && current < NUM_SENDERS
      && (forall i | 0 <= i < NUM_SENDERS :: senders[i].Valid())
      && (forall i, j | 0 <= i < j < NUM_SENDERS :: senders[i] != senders[j] && senders[i].repr !! senders[j].repr)
    }

    ghost function Lists(): seq<seq<RadioClient>>
      reads this, senders
    {
      seq(|senders|, i requires 0 <= i < |senders| reads senders => senders[i].nodes)
    }

    /** An accepted connection: dropped when the response header cannot be sent, otherwise put at
        the head of the current sender's list; only then does the turn pass on. */
    method Accept(fd: int, writeIndex: int, headerSent: bool) returns (client: RadioClient?)
      requires Valid()
      modifies this, senders
      ensures Valid()
      ensures client == null <==> !headerSent
      ensures client == null ==> Lists() == old(Lists()) && current == old(current)
      ensures client != null ==>
        && fresh(client) && client.fd == fd
        && Lists() == old(Lists())[old(current) := [client] + old(Lists())[old(current)]]
        && current == (old(current) + 1) % NUM_SENDERS
    {
      if !headerSent { return null; }
      client := senders[current].Register(fd, writeIndex);
      current := (current + 1) % NUM_SENDERS;
    }

    /** One pass of one sender leaves the other lists alone. */
    method PassOf(thread: nat, index: int, res: seq<SendResult>)
      requires Valid() && thread < NUM_SENDERS && |res| == |senders[thread].nodes|
      modifies senders[thread], senders[thread].repr
      ensures Valid()
      ensures Lists() == old(Lists())[thread := Survivors(old(Lists())[thread], res)]
    {
      var _ := senders[thread].Pass(index, res);
    }
  }
}
