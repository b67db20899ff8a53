/** The queue between the event loop and the worker threads: a linked list with a tail pointer. */
module TaskQueue {

  class Task<T> {
    const client: T
    var next: Task?<T>

    constructor (client: T)
      ensures this.client == client && next == null
    {
      this.client, next := client, null;
    }
  }

  /** The calls made under the queue's mutex, in the order in which they got it. */
  datatype Call<T> = Push(client: T) | Pop(client: T)

  function Pushed<T>(calls: seq<Call<T>>): seq<T> {
    if calls == [] then []
    else
      var last := calls[|calls| - 1];
      Pushed(calls[..|calls| - 1]) + if last.Push? then [last.client] else []
  }

  function Popped<T>(calls: seq<Call<T>>): seq<T> {
    if calls == [] then []
    else
      var last := calls[|calls| - 1];
      Popped(calls[..|calls| - 1]) + if last.Pop? then [last.client] else []
  }

  class TaskQueue<T> {
    var head: Task?<T>
    var tail: Task?<T>
    ghost var nodes: seq<Task<T>>
    ghost var repr: set<Task<T>>
    ghost var calls: seq<Call<T>>

    ghost predicate Valid()
      reads this, repr
    {
      && (forall i | 0 <= i < |nodes| :: nodes[i] in repr)
      && (forall i, j | 0 <= i < j < |nodes| :: nodes[i] != nodes[j])
      && head == (if nodes == [] then null else nodes[0])
      && tail == (if nodes == [] then null else nodes[|nodes| - 1])
      && (forall i {:trigger nodes[i].next} | 0 <= i < |nodes| ::
            nodes[i].next == if i + 1 < |nodes| then nodes[i + 1] else null)
      && Pushed(calls) == Popped(calls) + Waiting()
    }

    /** The clients in the queue, in order. */
    ghost function Waiting(): (w: seq<T>)
      reads this
      ensures |w| == |nodes|
    {
      seq(|nodes|, i requires 0 <= i < |nodes| reads this => nodes[i].client)
    }

    constructor ()
      ensures Valid() && calls == [] && Waiting() == [] && fresh(repr)
    {
      head, tail := null, null;
      nodes, repr, calls := [], {}, [];
    }

    method QueuePush(client: T)
      requires Valid()
      modifies this, repr
      ensures Valid() && fresh(repr - old(repr))
      ensures Waiting() == old(Waiting()) + [client]
      ensures calls == old(calls) + [Push(client)]
    {
      var task := new Task(client);
      if tail != null { tail.next := task; }
      tail := task;
      if head == null { head := task; }
      nodes, repr, calls := nodes + [task], repr + {task}, calls + [Push(client)];
      assert calls[..|calls| - 1] == old(calls);
    }

    /** A worker passes the wait only when the list is not empty. */
    method QueuePop() returns (client: T)
      requires Valid() && head != null
      modifies this
      ensures Valid() && repr == old(repr)
      ensures [client] + Waiting() == old(Waiting())
      ensures calls == old(calls) + [Pop(client)]
    {
      var task := head;
      head := head.next;
      if head == null { tail := null; }
      client := task.client;
      nodes, calls := nodes[1..], calls + [Pop(client)];
      assert calls[..|calls| - 1] == old(calls);
      assert [client] + Waiting() == old(Waiting());
    }
  }

  /** The n-th node from the head, following `next`; null past the end. */
  ghost function Reach<T>(q: TaskQueue<T>, n: nat): Task?<T>
    requires q.Valid()
    reads q, q.repr
  {
    if n == 0 then null
    else if n == 1 then q.head
    else
      var before := Reach(q, n - 1);
      if before != null && before in q.repr then before.next else null
  }

  lemma {:induction false} ReachNode<T>(q: TaskQueue<T>, n: nat)
    requires q.Valid() && 1 <= n <= |q.nodes|
    ensures Reach(q, n) == q.nodes[n - 1]
  {
    if n == 1 {
    } else {
      ReachNode(q, n - 1);
      assert q.nodes[n - 2].next == q.nodes[n - 1];
    }
  }

  /** The tail is the last node that is reached from the head. */
  lemma TailReached<T>(q: TaskQueue<T>)
    requires q.Valid()
    ensures q.tail == Reach(q, |q.nodes|) && Reach(q, |q.nodes| + 1) == null
  {
    if q.nodes == [] {
    } else {
      ReachNode(q, |q.nodes|);
    }
  }

  // ---------------------------------------------------------------------------------------------
  // Schedules

  /** One thread's turn at the mutex: the event loop puts a client in, or a worker comes for one; a
      worker that finds the list empty goes on waiting. */
  datatype Turn<T> = Put(client: T) | Come

  /** The clients put in by a schedule, in order. */
  function Puts<T>(turns: seq<Turn<T>>): seq<T> {
    if turns == [] then []
    else
      var last := turns[|turns| - 1];
      Puts(turns[..|turns| - 1]) + if last.Put? then [last.client] else []
  }

  /** How many of the workers that came did not have to wait. */
  function Served<T>(turns: seq<Turn<T>>): (n: nat)
    ensures n <= |Puts(turns)|
  {
    if turns == [] then 0
    else
      var n := Served(turns[..|turns| - 1]);
      if turns[|turns| - 1].Come? && n < |Puts(turns[..|turns| - 1])| then n + 1 else n
  }

  lemma NextTurn<T>(turns: seq<Turn<T>>, i: nat)
    requires i < |turns|
    ensures turns[..i + 1][..i] == turns[..i] && turns[..i + 1][i] == turns[i]
    ensures Puts(turns[..i + 1]) == Puts(turns[..i]) + if turns[i].Put? then [turns[i].client] else []
    ensures Served(turns[..i + 1]) ==
            Served(turns[..i]) + if turns[i].Come? && Served(turns[..i]) < |Puts(turns[..i])| then 1 else 0
  {
    assert turns[..i + 1][..i] == turns[..i];
  }

  /** Under every schedule of event loop and workers on one queue, what the workers get is the initial
      part of what was put in, as long as there were workers for it; the rest is in the list, which
      ends with its tail. */
  method RunSchedule<T>(turns: seq<Turn<T>>) returns (q: TaskQueue<T>, popped: seq<T>)
    ensures q.Valid() && fresh(q)
    ensures popped == Puts(turns)[..Served(turns)] && q.Waiting() == Puts(turns)[Served(turns)..]
    ensures Pushed(q.calls) == Puts(turns) && Popped(q.calls) == popped
    ensures q.tail == Reach(q, |q.nodes|) && Reach(q, |q.nodes| + 1) == null
  {
    q := new TaskQueue<T>();
    popped := [];
    hide Puts, Served;
    assert Puts(turns[..0]) == [] && Served(turns[..0]) == 0 by { NoTurns(turns); }
    for i := 0 to |turns|
      invariant q.Valid() && fresh(q) && fresh(q.repr)
      invariant |popped| == Served(turns[..i]) && popped + q.Waiting() == Puts(turns[..i])
      invariant Popped(q.calls) == popped
    {
      NextTurn(turns, i);
      ghost var calls := q.calls;
      match turns[i] {
        case Put(client) =>
          q.QueuePush(client);
          assert q.calls[..|q.calls| - 1] == calls;
        case Come =>
          if q.head != null {
            var client := q.QueuePop();
            popped := popped + [client];
            assert q.calls[..|q.calls| - 1] == calls;
          }
      }
    }
    assert turns[..|turns|] == turns;
    TailReached(q);
  }

  lemma NoTurns<T>(turns: seq<Turn<T>>)
    ensures Puts(turns[..0]) == [] && Served(turns[..0]) == 0
  {
  }
}
