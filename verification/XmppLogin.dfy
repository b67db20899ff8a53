/**
 * The end of the login in the chat server: a page that has become ready is answered and is in its room.
 * The messages of the handshake's runs are those that one of the server's connections sends.
 */
module XmppLogin {
  import opened Common
  import opened XmppSession
  import H = XmppHandshake
  import opened Muc
  import opened MucHistory
  import opened MucDelivery

  /** The words of each message that connection fd has sent since it was opened. */
  function Sent(h: seq<Event>, fd: Fd): seq<set<Word>> {
    if h == [] then []
    else if Last(h).fd != fd then Sent(Before(h), fd)
    else
      match Last(h)
      case Receive(_, m) => Sent(Before(h), fd) + [m.words]
      case _ => []
  }

  /** Connection fd has sent the messages q, so far as their words go. */
  predicate Carries(h: seq<Event>, fd: Fd, q: seq<H.Msg>) {
    |Sent(h, fd)| == |q| && forall i | 0 <= i < |q| :: Sent(h, fd)[i] == q[i].words
  }

  lemma {:induction false} PhaseSnoc(p: Phase, q: seq<H.Msg>, m: H.Msg)
    ensures H.PhaseAfter(p, q + [m]) == Advanced(H.PhaseAfter(p, q), m.words)
    decreases |q|
  {
    if q == [] {
      DispatchByWords(p, m.words);
      assert ([] + [m])[1..] == [];
    } else {
      PhaseSnoc(NextPhase(p, q[0].words), q[1..], m);
      assert (q + [m])[1..] == q[1..] + [m];
    }
  }

  /** The phase of a connection is the one its messages lead the handshake's server to. */
  lemma {:induction false} PhaseOfSent(h: seq<Event>, fd: Fd, q: seq<H.Msg>)
    requires PhaseOf(h, fd).Some? && Carries(h, fd, q)
    ensures PhaseOf(h, fd).value == H.PhaseAfter(Connected, q)
    decreases |h|
  {
    hide Advanced;
    if Last(h).fd != fd {
      PhaseOfSent(Before(h), fd, q);
    } else if Last(h).Receive? {
      var n := |q| - 1;
      assert Sent(Before(h), fd) == Sent(h, fd)[..n];
      PhaseOfSent(Before(h), fd, q[..n]);
      PhaseSnoc(Connected, q[..n], q[n]);
      assert q == q[..n] + [q[n]];
    }
  }

  /** A connection whose messages end a login (see `XmppHandshake.HandshakeCompletes`): its session
      request is answered, and its presence for "room@host/nick", if it holds no word of an earlier
      branch, makes it a member of that room under that nickname. */
  lemma LoginJoins(s: Server, h: seq<Event>, fd: Fd, q: seq<H.Msg>, n: nat, session: Request, m: Request,
      room: string, host: string, nick: string)
    requires Refines(s, h) && PhaseOf(h, fd).Some?
    requires H.Greeted(Connected, q, n, m.words) && Carries(h, fd, q[..n]) && session.words == q[n].words
    requires SessionTag !in m.words && !({IqTag, Disco} <= m.words) && PresenceTag in m.words
    requires m.to == room + "@" + host + "/" + nick && |m.to| <= 63
    requires '@' !in room && '/' !in room && '/' !in host
    ensures Step(s, Receive(fd, session)) == (s, [Delivery(fd, SessionResult)])
    ensures var joined := h + [Receive(fd, session)] + [Receive(fd, m)];
            MemberOf(joined, fd, room) && NickOf(joined, fd) == nick
  {
    PhaseOfSent(h, fd, q[..n]);
    Answered(s, h, fd, session);
    var e, f := Receive(fd, session), Receive(fd, m);
    var h1 := h + [e];
    assert Before(h1) == h && Last(h1) == e && Before(h1 + [f]) == h1 && Last(h1 + [f]) == f;
    assert PhaseOf(h1, fd) == Some(Bound);
    RoomAndNick(room, host, nick);
    assert To(m) == m.to;
    hide JoinOf;
    assert LatestJoin(h1 + [f], fd) == Some((room, nick));
  }
}
