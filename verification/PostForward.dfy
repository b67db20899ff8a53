/**
 * Forwarding the body of a POST request to a CGI program: first what arrived in the buffer with
 * the header, which the code measures with `strlen`, then what the socket delivers.
 */
module PostForward {
  import opened Common

  const CHUNK := 4096

  /** One round of `epoll_wait` and `recv`: Data(more) makes more + 1 bytes available. */
  datatype Turn = Timeout | WaitError | Closed | Again | RecvError | Data(more: nat)

  predicate Fatal(t: Turn) {
    !t.Again? && !t.Data?
  }

  /** Why the loop is where it is: all forwarded, given up, or still waiting after the given turns. */
  datatype Outcome = Complete | GivenUp | Waiting

  /** The first `length` bytes that the client sent after the header. */
  ghost function Body(buffered: seq<byte>, peer: nat -> byte, length: nat): (b: seq<byte>)
    ensures |b| == length
  {
    seq(length, i requires 0 <= i => if i < |buffered| then buffered[i] else peer(i - |buffered|))
  }

  /** `strlen`. */
  function TextLength(s: seq<byte>): (n: nat)
    ensures n <= |s| && 0 !in s[..n] && (n < |s| ==> s[n] == 0)
  {
    if s == [] || s[0] == 0 then 0 else 1 + TextLength(s[1..])
  }

  /** How many bytes one `recv` returns. */
  function Received(t: Turn, remaining: nat): (n: nat)
    requires t.Data? && remaining > 0
    ensures 0 < n <= remaining
  {
    Min(t.more + 1, Min(CHUNK, remaining))
  }

  /** How many bytes of the socket the loop forwards, and how it ends. */
  function Drained(remaining: nat, turns: seq<Turn>): (r: (nat, Outcome))
    ensures r.0 <= remaining && (r.1.Complete? <==> r.0 == remaining)
    decreases |turns|
  {
    if remaining == 0 then (0, Complete)
    else if turns == [] then (0, Waiting)
    else
      match turns[0]
      case Data(_) =>
        var n := Received(turns[0], remaining);
        var rest := Drained(remaining - n, turns[1..]);
        (n + rest.0, rest.1)
      case Again => Drained(remaining, turns[1..])
      case _ => (0, GivenUp)
  }

  /** The n bytes of the socket from position `from` on. */
  function Stream(peer: nat -> byte, from: nat, n: nat): (s: seq<byte>)
    ensures |s| == n && forall j | 0 <= j < n :: s[j] == peer(from + j)
  {
    seq(n, j requires 0 <= j => peer(from + j))
  }

  lemma Nothing(peer: nat -> byte)
    ensures Stream(peer, 0, 0) == []
  {
  }

  lemma StreamSplit(peer: nat -> byte, a: nat, b: nat)
    ensures Stream(peer, 0, a + b) == Stream(peer, 0, a) + Stream(peer, a, b)
  {
  }

  /** What the program's input pipe gets. */
  ghost function Piped(buffered: seq<byte>, peer: nat -> byte, length: nat, turns: seq<Turn>): seq<byte> {
    var k := Min(TextLength(buffered), length);
    buffered[..k] + Stream(peer, 0, Drained(length - k, turns).0)
  }

  /** One iteration of the loop, at turn i. */
  lemma DrainTurn(remaining: nat, turns: seq<Turn>, i: nat)
    requires remaining > 0 && i <= |turns|
    ensures i == |turns| ==> Drained(remaining, turns[i..]) == (0, Waiting)
    ensures i < |turns| && Fatal(turns[i]) ==> Drained(remaining, turns[i..]) == (0, GivenUp)
    ensures i < |turns| && turns[i].Again? ==> Drained(remaining, turns[i..]) == Drained(remaining, turns[i + 1..])
    ensures i < |turns| && turns[i].Data? ==>
              var n := Received(turns[i], remaining);
              var rest := Drained(remaining - n, turns[i + 1..]);
              Drained(remaining, turns[i..]) == (n + rest.0, rest.1)
  {
    if i < |turns| { assert turns[i..][0] == turns[i] && turns[i..][1..] == turns[i + 1..]; }
  }

  lemma DrainNothing(turns: seq<Turn>)
    ensures Drained(0, turns) == (0, Complete)
  {
  }

  /** The loop that reads the rest of the body from the socket and writes it to the pipe. */
  method ForwardRest(peer: nat -> byte, length: nat, turns: seq<Turn>) returns (written: seq<byte>, outcome: Outcome)
    ensures written == Stream(peer, 0, Drained(length, turns).0)
    ensures outcome == Drained(length, turns).1
  {
    hide Stream, Drained, Min;
    var remaining: nat, pos: nat, i: nat := length, 0, 0;
    written, outcome := Stream(peer, 0, 0), Complete;
    assert turns[0..] == turns;
    while remaining > 0
      invariant i <= |turns| && outcome.Complete?
      invariant written == Stream(peer, 0, pos)
      invariant Drained(length, turns).0 == pos + Drained(remaining, turns[i..]).0
      invariant Drained(length, turns).1 == Drained(remaining, turns[i..]).1
      decreases |turns| - i
    {
      DrainTurn(remaining, turns, i);
      if i == |turns| { return written, Waiting; }
      var turn := turns[i];
      i := i + 1;
      if turn.Data? {
        var n := Received(turn, remaining);
        StreamSplit(peer, pos, n);
        written := written + Stream(peer, pos, n);
        pos, remaining := pos + n, remaining - n;
      } else if turn.Again? {
        continue;
      } else {
        return written, GivenUp;
      }
    }
    DrainNothing(turns[i..]);
  }

  method ForwardBody(buffered: seq<byte>, peer: nat -> byte, length: nat, turns: seq<Turn>)
    returns (pipe: seq<byte>, outcome: Outcome)
    ensures pipe == Piped(buffered, peer, length, turns)
    ensures outcome == Drained(length - Min(TextLength(buffered), length), turns).1
  {
    hide Stream, Drained;
    var bodyInBuffer := TextLength(buffered);
    pipe, outcome := [], Complete;
    if bodyInBuffer > 0 {
      if bodyInBuffer > length { bodyInBuffer := length; }
      pipe := buffered[..bodyInBuffer];
    }
    if bodyInBuffer < length {
      var rest, end := ForwardRest(peer, length - bodyInBuffer, turns);
      pipe, outcome := pipe + rest, end;
    } else {
      DrainNothing(turns);
      Nothing(peer);
    }
  }

  // ---------------------------------------------------------------------------------------------

  /** The number of rounds that deliver something. */
  function Deliveries(turns: seq<Turn>): nat {
    if turns == [] then 0 else (if turns[0].Data? then 1 else 0) + Deliveries(turns[1..])
  }

  /** The loop gives up only on a timeout, an end of input or an error, and if none occurs it
      completes after at most as many deliveries as bytes are missing. */
  lemma {:induction false} DrainEnds(remaining: nat, turns: seq<Turn>)
    ensures Drained(remaining, turns).1.GivenUp? ==> exists t :: t in turns && Fatal(t)
    ensures (forall t | t in turns :: !Fatal(t)) && Deliveries(turns) >= remaining ==>
              Drained(remaining, turns).1.Complete?
    decreases |turns|
  {
    if remaining == 0 {
    } else if turns != [] {
      assert turns == [turns[0]] + turns[1..];
      if turns[0].Data? {
        DrainEnds(remaining - Received(turns[0], remaining), turns[1..]);
      } else if turns[0].Again? {
        DrainEnds(remaining, turns[1..]);
      } else {
        assert Fatal(turns[0]);
      }
    }
  }

  /** The bytes that the rounds before the first fatal one deliver, at most 4096 in each. */
  function Delivered(turns: seq<Turn>): nat {
    if turns == [] || Fatal(turns[0]) then 0
    else (if turns[0].Data? then Min(turns[0].more + 1, 4096) else 0) + Delivered(turns[1..])
  }

  /** The loop forwards exactly these bytes, up to the number it is still to forward, and ends
      complete, given up or waiting accordingly. */
  lemma {:induction false} DrainedExactly(remaining: nat, turns: seq<Turn>)
    ensures var (n, outcome) := Drained(remaining, turns);
            && n == Min(remaining, Delivered(turns))
            && outcome == if Delivered(turns) >= remaining then Complete
                          else if exists t :: t in turns && Fatal(t) then GivenUp else Waiting
    decreases |turns|
  {
    if remaining == 0 {
    } else if turns != [] {
      assert turns == [turns[0]] + turns[1..];
      if turns[0].Data? {
        DrainedExactly(remaining - Received(turns[0], remaining), turns[1..]);
      } else if turns[0].Again? {
        DrainedExactly(remaining, turns[1..]);
      } else {
        assert turns[0] in turns && Fatal(turns[0]);
      }
    }
  }

  /** The condition on the buffered part: no NUL among the bytes that belong to the body. */
  predicate TextInBuffer(buffered: seq<byte>, length: nat) {
    0 !in buffered[..Min(|buffered|, length)]
  }

  /** Whatever the socket does, the pipe gets an initial part of the body, so never more than the
      declared length, and all of it when the loop completes, in particular when nothing fails and
      enough is delivered. */
  lemma PipeGetsBody(buffered: seq<byte>, peer: nat -> byte, length: nat, turns: seq<Turn>)
    requires TextInBuffer(buffered, length)
    ensures Piped(buffered, peer, length, turns) <= Body(buffered, peer, length)
    ensures (forall t | t in turns :: !Fatal(t)) && Deliveries(turns) >= length ==>
              Piped(buffered, peer, length, turns) == Body(buffered, peer, length)
  {
    var k := Min(TextLength(buffered), length);
    var b, p, m := Body(buffered, peer, length), Piped(buffered, peer, length, turns), Drained(length - k, turns).0;
    assert m > 0 ==> k == |buffered|;
    assert p == b[..k + m];
    DrainEnds(length - k, turns);
  }

  /** The condition is exact: the pipe gets an initial part of the body for every behaviour of the
      socket if and only if the buffered part of the body holds no NUL. */
  lemma PrefixExactly(buffered: seq<byte>, length: nat)
    ensures TextInBuffer(buffered, length) <==>
            forall peer: nat -> byte, turns :: Piped(buffered, peer, length, turns) <= Body(buffered, peer, length)
  {
    if TextInBuffer(buffered, length) {
      forall peer: nat -> byte, turns
        ensures Piped(buffered, peer, length, turns) <= Body(buffered, peer, length)
      {
        PipeGetsBody(buffered, peer, length, turns);
      }
    } else {
      var peer: nat -> byte, turns := i => 1, [Data(0)];
      var k := TextLength(buffered);
      assert k < Min(|buffered|, length) by {
        if k >= Min(|buffered|, length) {
          assert forall x | x in buffered[..Min(|buffered|, length)] :: x in buffered[..k];
        }
      }
      assert Piped(buffered, peer, length, turns)[k] == 1;
      assert Body(buffered, peer, length)[k] == 0;
    }
  }
}
