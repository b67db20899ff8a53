/**
 * The sender threads' linked client lists: the in-place pass that serves every client and unlinks
 * those whose socket failed hard, and the registration that inserts at the head.
 */
module RadioClients {
  import opened Common

  /** How the three sends of one chunk to one client end: the first that fails decides, with
      EAGAIN (Again) or any other error (Hard). */
  datatype SendResult = Sent | Again | Hard

  /** The clients among the first k of `xs` that did not fail hard, in order; `res[i]` is the
      outcome at the i-th client visited. */
  function KeptOf<T>(xs: seq<T>, k: nat, res: seq<SendResult>): seq<T>
    requires k <= |xs| && |res| == |xs|
  {
    if k == 0 then []
    else KeptOf(xs, k - 1, res) + (if res[k - 1].Hard? then [] else [xs[k - 1]])
  }

  function Survivors<T>(xs: seq<T>, res: seq<SendResult>): seq<T>
    requires |res| == |xs|
  {
    KeptOf(xs, |xs|, res)
  }

  /** The positions below k that did not fail hard, in order. */
  function Positions(res: seq<SendResult>, k: nat): seq<nat>
    requires k <= |res|
  {
    if k == 0 then []
    else Positions(res, k - 1) + (if res[k - 1].Hard? then [] else [k - 1])
  }

  /** Increasing positions below k that did not fail hard. */
  predicate Selects(res: seq<SendResult>, k: nat, at: seq<nat>) {
    && (forall a | 0 <= a < |at| :: at[a] < k && at[a] < |res| && !res[at[a]].Hard?)
    && forall a, b | 0 <= a < b < |at| :: at[a] < at[b]
  }

  lemma SelectsSnoc(res: seq<SendResult>, k: nat, at: seq<nat>)
    requires k < |res| && Selects(res, k, at)
    ensures Selects(res, k + 1, at)
    ensures !res[k].Hard? ==> Selects(res, k + 1, at + [k])
  {
  }

  lemma {:induction false} PositionsSelect(res: seq<SendResult>, k: nat)
    requires k <= |res|
    ensures Selects(res, k, Positions(res, k))
  {
    if k == 0 {
    } else {
      hide Selects;
      PositionsSelect(res, k - 1);
      SelectsSnoc(res, k - 1, Positions(res, k - 1));
      assert Positions(res, k - 1) + [] == Positions(res, k - 1);
    }
  }

  lemma {:induction false} PositionsComplete(res: seq<SendResult>, k: nat, i: nat)
    requires i < k <= |res| && !res[i].Hard?
    ensures i in Positions(res, k)
  {
    if i == k - 1 {
      assert Positions(res, k)[|Positions(res, k)| - 1] == i;
    } else {
      PositionsComplete(res, k - 1, i);
    }
  }

  lemma {:induction false} KeptLength<T>(xs: seq<T>, k: nat, res: seq<SendResult>)
    requires k <= |xs| && |res| == |xs|
    ensures |Positions(res, k)| == |KeptOf(xs, k, res)|
  {
    if k == 0 {
    } else {
      KeptLength(xs, k - 1, res);
    }
  }

  lemma {:induction false} KeptAt<T>(xs: seq<T>, k: nat, res: seq<SendResult>, a: nat)
    requires k <= |xs| && |res| == |xs| && a < |Positions(res, k)|
    ensures |Positions(res, k)| == |KeptOf(xs, k, res)| && Positions(res, k)[a] < k
    ensures KeptOf(xs, k, res)[a] == xs[Positions(res, k)[a]]
  {
    KeptLength(xs, k, res);
    KeptLength(xs, k - 1, res);
    if a == |Positions(res, k - 1)| {
      assert Positions(res, k)[a] == k - 1;
    } else {
      KeptAt(xs, k - 1, res, a);
    }
  }

  /** The survivors are a strictly increasing selection of positions, `at`, and no position that
      did not fail hard is missing from it. */
  lemma KeptPositions<T>(xs: seq<T>, k: nat, res: seq<SendResult>) returns (at: seq<nat>)
    requires k <= |xs| && |res| == |xs|
    ensures |at| == |KeptOf(xs, k, res)|
    ensures forall a | 0 <= a < |at| :: at[a] < k && KeptOf(xs, k, res)[a] == xs[at[a]] && !res[at[a]].Hard?
    ensures forall a, b | 0 <= a < b < |at| :: at[a] < at[b]
    ensures forall i: nat | i < k && !res[i].Hard? :: i in at
  {
    at := Positions(res, k);
    PositionsSelect(res, k);
    KeptLength(xs, k, res);
    forall a: nat | a < |at| ensures KeptOf(xs, k, res)[a] == xs[at[a]] { KeptAt(xs, k, res, a); }
    forall i: nat | i < k && !res[i].Hard? ensures i in at { PositionsComplete(res, k, i); }
  }

  /** Exactly the clients that did not fail hard survive. */
  lemma SurvivorsExact<T>(xs: seq<T>, res: seq<SendResult>, x: T)
    requires |res| == |xs|
    ensures x in Survivors(xs, res) <==> exists i: nat :: i < |xs| && xs[i] == x && !res[i].Hard?
  {
    var at := KeptPositions(xs, |xs|, res);
    if i: nat :| i < |xs| && xs[i] == x && !res[i].Hard? {
      var a :| 0 <= a < |at| && at[a] == i;
      assert Survivors(xs, res)[a] == x;
    }
  }

  predicate Distinct<T(==)>(xs: seq<T>) {
    forall i, j | 0 <= i < j < |xs| :: xs[i] != xs[j]
  }

  lemma SurvivorsDistinct<T>(xs: seq<T>, res: seq<SendResult>)
    requires Distinct(xs) && |res| == |xs|
    ensures Distinct(Survivors(xs, res))
  {
    var at := KeptPositions(xs, |xs|, res);
    forall i, j | 0 <= i < j < |at| ensures Survivors(xs, res)[i] != Survivors(xs, res)[j] {
      assert at[i] < at[j];
    }
  }

  class RadioClient {
    const fd: int
    var readIndex: int
    var next: RadioClient?

    constructor (fd: int, readIndex: int, next: RadioClient?)
      ensures this.fd == fd && this.readIndex == readIndex && this.next == next
    {
      this.fd, this.readIndex, this.next := fd, readIndex, next;
    }
  }

  /** The node that follows position i of a null-terminated chain. */
  function Follow(nodes: seq<RadioClient>, i: nat): RadioClient?
    requires i <= |nodes|
  {
    if i < |nodes| then nodes[i] else null
  }

  /** The read index of client i after k visits. */
  function Mark(first: seq<int>, res: seq<SendResult>, index: int, k: nat, i: nat): int
    requires i < |first| == |res|
  {
    if i < k && res[i].Sent? then index else first[i]
  }

  class SenderContext {
    var head: RadioClient?
    ghost var nodes: seq<RadioClient>
    ghost var repr: set<RadioClient>

    /** `head` starts an acyclic null-terminated list whose nodes are `nodes`, in order. */
    ghost predicate Valid()
      reads this, repr
    {
      && Distinct(nodes)
      && (forall i | 0 <= i < |nodes| :: nodes[i] in repr)
      && head == Follow(nodes, 0)
      && forall i {:trigger nodes[i].next} | 0 <= i < |nodes| :: nodes[i].next == Follow(nodes, i + 1)
    }

    constructor ()
      ensures Valid() && nodes == [] && repr == {}
    {
      head, nodes, repr := null, [], {};
    }

    /** Registration by the main thread: the new client becomes the head. */
    method Register(fd: int, writeIndex: int) returns (client: RadioClient)
      requires Valid()
      modifies this
      ensures Valid() && fresh(client) && nodes == [client] + old(nodes) && repr == old(repr) + {client}
      ensures client.fd == fd && client.readIndex == writeIndex
    {
      client := new RadioClient(fd, writeIndex, head);
      head, nodes, repr := client, [client] + nodes, repr + {client};
      assert forall i | 1 <= i < |nodes| :: nodes[i] == old(nodes)[i - 1];
    }

    /** Unlinking the node at position k, given its predecessor. */
    method Unlink(prev: RadioClient?, curr: RadioClient, ghost k: nat)
      requires Valid() && k < |nodes| && curr == nodes[k]
      requires prev == if k == 0 then null else nodes[k - 1]
      modifies this`head, this`nodes, (if prev == null then {} else {prev})`next
      ensures Valid() && nodes == old(nodes)[..k] + old(nodes)[k + 1..]
    {
      if prev == null { head := curr.next; } else { prev.next := curr.next; }
      ghost var before := nodes;
      nodes := nodes[..k] + nodes[k + 1..];
      forall i | 0 <= i < |nodes| ensures nodes[i].next == Follow(nodes, i + 1) {
        assert nodes[i] == if i < k then before[i] else before[i + 1];
      }
    }

    /** The loop state of the pass: `kept` lies behind `curr`, `rest` starts at it. */
    ghost predicate At(kept: seq<RadioClient>, rest: seq<RadioClient>, prev: RadioClient?, curr: RadioClient?)
      reads this, repr
    {
      && Valid() && nodes == kept + rest
      && curr == Follow(rest, 0) && (curr != null ==> curr in repr)
      && prev == (if kept == [] then null else kept[|kept| - 1]) && (prev != null ==> prev in repr)
    }

    /** One iteration: the outcome of the three sends decides whether the node stays. */
    method Visit(prev: RadioClient?, curr: RadioClient, ghost kept: seq<RadioClient>, ghost rest: seq<RadioClient>,
                 r: SendResult, index: int)
      returns (prev': RadioClient?, curr': RadioClient?, ghost kept': seq<RadioClient>)
      requires At(kept, rest, prev, curr)
      modifies this`head, this`nodes, (if prev == null then {} else {prev})`next, curr`readIndex
      ensures rest != [] && curr == rest[0]
      ensures kept' == if r.Hard? then kept else kept + [curr]
      ensures At(kept', rest[1..], prev', curr')
      ensures curr.readIndex == if r.Sent? then index else old(curr.readIndex)
    {
      assert curr == nodes[|kept|];
      if r.Hard? {
        var next := curr.next;
        Unlink(prev, curr, |kept|);
        assert nodes == kept + rest[1..];
        return prev, next, kept;
      }
      if r.Sent? { curr.readIndex := index; }
      assert kept + rest == (kept + [curr]) + rest[1..];
      return curr, curr.next, kept + [curr];
    }

    /** The pass after k visits of the list `all`, whose read indices were `first`. */
    ghost predicate Progress(all: seq<RadioClient>, first: seq<int>, res: seq<SendResult>, index: int, k: nat,
                             prev: RadioClient?, curr: RadioClient?)
      reads this, repr, all
    {
      && |first| == |res| == |all| && k <= |all| && Distinct(all)
      && At(KeptOf(all, k, res), all[k..], prev, curr)
      && forall i | 0 <= i < |all| :: all[i].readIndex == Mark(first, res, index, k, i)
    }

    method VisitNext(prev: RadioClient?, curr: RadioClient, r: SendResult, index: int,
                     ghost all: seq<RadioClient>, ghost first: seq<int>, ghost res: seq<SendResult>, ghost k: nat)
      returns (prev': RadioClient?, curr': RadioClient?)
      requires Progress(all, first, res, index, k, prev, curr)
      requires k < |res| && r == res[k]
      modifies this`head, this`nodes, (if prev == null then {} else {prev})`next, curr`readIndex
      ensures Progress(all, first, res, index, k + 1, prev', curr')
    {
      ghost var kept;
      prev', curr', kept := Visit(prev, curr, KeptOf(all, k, res), all[k..], r, index);
      assert kept == KeptOf(all, k + 1, res) && all[k..][1..] == all[k + 1..];
      forall i | 0 <= i < |all| ensures all[i].readIndex == Mark(first, res, index, k + 1, i) {
        assert i != k ==> all[i] != all[k];
      }
    }

    /** The prev/curr pass over the list.  It visits every node once, leaves exactly the clients
        that did not fail hard, in order, and marks exactly the served ones with the new index. */
    method Pass(index: int, res: seq<SendResult>) returns (visited: nat)
      requires Valid() && |res| == |nodes|
      modifies this`head, this`nodes, repr
      ensures Valid()
      ensures visited == |old(nodes)|
      ensures nodes == Survivors(old(nodes), res)
      ensures forall i | 0 <= i < |old(nodes)| ::
        old(nodes)[i].readIndex == if res[i].Sent? then index else old(nodes[i].readIndex)
    {
      hide Progress;
      ghost var all := nodes;
      ghost var first := seq(|all|, i requires 0 <= i < |all| reads all => all[i].readIndex);
      var curr, prev: RadioClient? := head, null;
      visited := 0;
      ProgressStart(first, res, index);
      while curr != null
        invariant Progress(all, first, res, index, visited, prev, curr)
        decreases |all| - visited
      {
        ProgressCases(all, first, res, index, visited, prev, curr);
        prev, curr := VisitNext(prev, curr, res[visited], index, all, first, res, visited);
        visited := visited + 1;
      }
      ProgressCases(all, first, res, index, visited, prev, curr);
    }

    lemma ProgressStart(first: seq<int>, res: seq<SendResult>, index: int)
      requires Valid() && |res| == |nodes| == |first|
      requires forall i | 0 <= i < |nodes| :: nodes[i].readIndex == first[i]
      ensures Progress(nodes, first, res, index, 0, null, head)
    {
    }

    lemma ProgressCases(all: seq<RadioClient>, first: seq<int>, res: seq<SendResult>, index: int, k: nat,
                        prev: RadioClient?, curr: RadioClient?)
      requires Progress(all, first, res, index, k, prev, curr)
      ensures |first| == |res| == |all| && k <= |all| && (prev != null ==> prev in repr)
      ensures curr != null ==> k < |all| && curr in repr
      ensures curr == null ==> k == |all| && Valid() && nodes == Survivors(all, res)
      ensures curr == null ==> forall i | 0 <= i < |all| :: all[i].readIndex == if res[i].Sent? then index else first[i]
    {
    }
  }
}
