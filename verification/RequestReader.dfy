/** The read step of the plain server's event loop: one readable connection until it would block. */
module RequestReader {
  import opened Common
  import Ownership

  const BUFFER_SIZE := Ownership.BUFFER_SIZE
  const BLANK_LINE: seq<byte> := [13, 10, 13, 10]

  /** What `recv` finds: octets in the socket, of which it takes as many as there is room for,
      EAGAIN, or the end of the input or an error. */
  datatype Recv = Data(octets: seq<byte>) | Again | Gone

  /** What becomes of the connection.  Both: pushed to the queue and cleaned up as well. */
  datatype Outcome = Waiting | Queued | CleanedUp | Both

  /** A blank line that begins at position i, in front of any NUL. */
  predicate BlankLineAt(content: seq<byte>, i: nat) {
    i <= |content| && OccursAt(content, BLANK_LINE, i) && 0 !in content[..i]
  }

  /** `strstr(buffer, "\r\n\r\n")`. */
  predicate Complete(content: seq<byte>) {
    exists i: nat | i <= |content| :: BlankLineAt(content, i)
  }

  /** A blank line completes a request, whatever comes behind it. */
  lemma BlankLineCompletes(head: seq<byte>, rest: seq<byte>)
    requires 0 !in head
    ensures Complete(head + [13, 10, 13, 10] + rest)
  {
    var content := head + [13, 10, 13, 10] + rest;
    assert content[|head|..|head| + 4] == BLANK_LINE && content[..|head|] == head;
    assert BlankLineAt(content, |head|);
  }

  lemma BlankLineKept(head: seq<byte>, rest: seq<byte>, i: nat)
    ensures BlankLineAt(head + [0] + rest, i) <==> BlankLineAt(head, i)
  {
    var content := head + [0] + rest;
    if i + 4 <= |head| {
      assert content[i..i + 4] == head[i..i + 4] && content[..i] == head[..i];
    } else {
      assert content[|head|] == 0;
    }
  }

  /** Behind a NUL it is not seen. */
  lemma NulHides(head: seq<byte>, rest: seq<byte>)
    ensures Complete(head + [0] + rest) <==> Complete(head)
  {
    forall i: nat ensures BlankLineAt(head + [0] + rest, i) <==> BlankLineAt(head, i) {
      BlankLineKept(head, rest, i);
    }
  }

  /** Without the last octet of its blank line, or without any of them, a request is not complete. */
  lemma NotYetComplete(head: seq<byte>)
    requires forall i | 0 <= i < |head| :: head[i] != 10
    ensures !Complete(head) && !Complete(head + [13, 10, 13])
  {
    var content := head + [13, 10, 13];
    forall i: nat ensures !BlankLineAt(content, i) && !BlankLineAt(head, i) {
      if i + 4 <= |content| { assert content[i..i + 4][3] == content[i + 3] && content[i..i + 4][1] == content[i + 1]; }
      if i + 4 <= |head| { assert head[i..i + 4][3] == head[i + 3]; }
    }
  }

  function Taken(r: Recv, content: seq<byte>): seq<byte>
    requires r.Data? && |content| < BUFFER_SIZE - 1
  {
    r.octets[..Min(|r.octets|, BUFFER_SIZE - 1 - |content|)]
  }

  function Size(content: seq<byte>, queued: bool): Outcome {
    if |content| < BUFFER_SIZE - 1 then if queued then Queued else Waiting
    else if queued then Both else CleanedUp
  }

  /** The contents of the buffer at the end of the step, and what becomes of the connection. */
  function Read(content: seq<byte>, recvs: seq<Recv>): (seq<byte>, Outcome)
    requires |content| < BUFFER_SIZE
    decreases |recvs|
  {
    if |content| == BUFFER_SIZE - 1 || recvs == [] || recvs[0].Again? then (content, Size(content, false))
    else if recvs[0].Gone? || recvs[0].octets == [] then (content, CleanedUp)
    else
      var next := content + Taken(recvs[0], content);
      if Complete(next) then (next, Size(next, true)) else Read(next, recvs[1..])
  }

  class Connection {
    const buffer: array<byte>
    var bytesRead: nat

    ghost predicate Valid()
      reads this, buffer
    {
      buffer.Length == BUFFER_SIZE && bytesRead < BUFFER_SIZE
    }

    ghost function Content(): seq<byte>
      requires Valid()
      reads this, buffer
    {
      buffer[..bytesRead]
    }

    constructor ()
      ensures Valid() && fresh(buffer) && bytesRead == 0
    {
      buffer := new byte[BUFFER_SIZE](_ => 0);
      bytesRead := 0;
    }

    method Store(octets: seq<byte>)
      requires Valid() && bytesRead + |octets| < BUFFER_SIZE
      modifies this, buffer
      ensures Valid() && Content() == old(Content()) + octets && buffer[bytesRead] == 0
    {
      for i := 0 to |octets|
        invariant Valid() && bytesRead == old(bytesRead)
        invariant forall j | 0 <= j < bytesRead :: buffer[j] == old(buffer[j])
        invariant forall j | 0 <= j < i :: buffer[bytesRead + j] == octets[j]
      {
        buffer[bytesRead + i] := octets[i];
      }
      bytesRead := bytesRead + |octets|;
      buffer[bytesRead] := 0;
    }

    method ReadRequest(recvs: seq<Recv>) returns (outcome: Outcome)
      requires Valid()
      modifies this, buffer
      ensures Valid() && (Content(), outcome) == Read(old(Content()), recvs)
    {
      hide Complete, Taken;
      var queued, i := false, 0;
      assert recvs[0..] == recvs;
      while bytesRead < BUFFER_SIZE - 1
        invariant Valid() && i <= |recvs| && !queued
        invariant Read(Content(), recvs[i..]) == Read(old(Content()), recvs)
        decreases |recvs| - i
      {
        assert i < |recvs| ==> recvs[i..][0] == recvs[i] && recvs[i..][1..] == recvs[i + 1..];
        if i == |recvs| || recvs[i].Again? { break; }
        if recvs[i].Gone? || recvs[i].octets == [] { return CleanedUp; }
        var octets := recvs[i].octets[..Min(|recvs[i].octets|, BUFFER_SIZE - 1 - bytesRead)];
        ghost var before := Content();
        assert octets == Taken(recvs[i], before) by { TakenIs(recvs[i], before); }
        Store(octets);
        i := i + 1;
        if Complete(buffer[..bytesRead]) {
          queued := true;
          break;
        }
      }
      outcome := Size(buffer[..bytesRead], queued);
    }
  }

  lemma TakenIs(r: Recv, content: seq<byte>)
    requires r.Data? && |content| < BUFFER_SIZE - 1
    ensures Taken(r, content) == r.octets[..Min(|r.octets|, BUFFER_SIZE - 1 - |content|)]
  {
  }

  /** The octets in the socket, in order. */
  function Offered(recvs: seq<Recv>): seq<byte> {
    if recvs == [] then [] else (if recvs[0].Data? then recvs[0].octets else []) + Offered(recvs[1..])
  }

  /** The buffer holds what came, in order.  A connection goes to the queue exactly when its buffer
      has come to hold a blank line, and is cleaned up as well exactly when that filled the buffer. */
  lemma {:induction false} QueuedWhenComplete(content: seq<byte>, recvs: seq<Recv>)
    requires |content| < BUFFER_SIZE && !Complete(content)
    ensures var (end, outcome) := Read(content, recvs);
            && content <= end <= content + Offered(recvs) && |end| < 4096
            && (outcome in {Queued, Both} <==> Complete(end))
            && (outcome.Both? <==> Complete(end) && |end| == 4095)
            && (outcome.Waiting? ==> |end| < 4095)
    decreases |recvs|
  {
    hide Complete, Taken;
    if |content| == BUFFER_SIZE - 1 || recvs == [] {
    } else if recvs[0].Data? && recvs[0].octets != [] {
      TakenIs(recvs[0], content);
      var next := content + Taken(recvs[0], content);
      assert Offered(recvs) == recvs[0].octets + Offered(recvs[1..]);
      assert next <= content + Offered(recvs);
      assert |next| < BUFFER_SIZE - 1 ==> next + Offered(recvs[1..]) == content + Offered(recvs);
      if !Complete(next) { QueuedWhenComplete(next, recvs[1..]); }
    }
  }

  /** The first 4095 octets of what the buffer held and the first k deliveries bring. */
  function Gathered(content: seq<byte>, recvs: seq<Recv>, k: nat): seq<byte>
    requires k <= |recvs|
  {
    var all := content + Offered(recvs[..k]);
    all[..Min(|all|, 4095)]
  }

  lemma GatheredFirst(content: seq<byte>, recvs: seq<Recv>, k: nat)
    requires |content| < 4095 && recvs != [] && recvs[0].Data? && k < |recvs|
    ensures Gathered(content, recvs, k + 1) == Gathered(content + Taken(recvs[0], content), recvs[1..], k)
  {
    assert recvs[..k + 1][1..] == recvs[1..][..k];
    var o, rest := recvs[0].octets, Offered(recvs[1..][..k]);
    assert Offered(recvs[..k + 1]) == o + rest;
    hide Offered;
    assert content + (o + rest) == content + o + rest;
    var n := 4095 - |content|;
    if |o| <= n {
      assert Taken(recvs[0], content) == o;
    } else {
      assert (content + o + rest)[..4095] == content + o[..n];
    }
  }

  lemma GatheredNone(content: seq<byte>, recvs: seq<Recv>)
    requires |content| < 4096
    ensures Gathered(content, recvs, 0) == content
  {
    assert content + Offered(recvs[..0]) == content;
  }

  /** The step takes the deliveries one after the other, and stops behind the k-th one for one of four
      reasons: the blank line has come, the buffer is full, nothing more is there, or the connection
      is gone; until then there was none. */
  lemma {:induction false} ReadsUntil(content: seq<byte>, recvs: seq<Recv>) returns (k: nat)
    requires |content| < 4096 && !Complete(content)
    ensures k <= |recvs| && forall j | 0 <= j < k :: recvs[j].Data? && recvs[j].octets != []
    ensures forall j | 0 <= j < k :: !Complete(Gathered(content, recvs, j)) && |Gathered(content, recvs, j)| < 4095
    ensures var (end, outcome) := Read(content, recvs);
            && end == Gathered(content, recvs, k)
            && if Complete(end) then outcome == if |end| == 4095 then Both else Queued
               else if |end| == 4095 then outcome == CleanedUp
               else if k == |recvs| || recvs[k].Again? then outcome == Waiting
               else outcome == CleanedUp && (recvs[k].Gone? || recvs[k].octets == [])
    decreases |recvs|
  {
    GatheredNone(content, recvs);
    k := 0;
    if |content| < 4095 && recvs != [] && recvs[0].Data? && recvs[0].octets != [] {
      var next := content + Taken(recvs[0], content);
      GatheredFirst(content, recvs, 0);
      GatheredNone(next, recvs[1..]);
      assert Read(content, recvs) == if Complete(next) then (next, Size(next, true)) else Read(next, recvs[1..]);
      hide Complete, Gathered, Taken, Read;
      if !Complete(next) {
        k := ReadsUntil(next, recvs[1..]);
        forall j | 0 <= j <= k ensures Gathered(content, recvs, j + 1) == Gathered(next, recvs[1..], j) {
          GatheredFirst(content, recvs, j);
        }
        forall j | 0 <= j < k + 1
          ensures !Complete(Gathered(content, recvs, j)) && |Gathered(content, recvs, j)| < 4095
        {
          if j > 0 { assert Gathered(content, recvs, j) == Gathered(next, recvs[1..], j - 1); }
        }
      }
      k := k + 1;
    }
  }
}
