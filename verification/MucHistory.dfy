/**
 * The client table refines the history of each connection taken alone, and what is sent for a
 * stanza is exactly what those histories say.
 */
module MucHistory {
  import opened Common
  import opened XmppSession
  import opened Muc

  function Last(h: seq<Event>): Event
    requires h != []
  {
    h[|h| - 1]
  }

  function Before(h: seq<Event>): seq<Event>
    requires h != []
  {
    h[..|h| - 1]
  }

  // ---------------------------------------------------------------------------------------------
  // One connection's history

  /** The phase that a message leads to, by its words. */
  function Advanced(p: Phase, w: set<Word>): Phase {
    match p
    case Connected => if StreamTag in w || XmlDecl in w then StreamOpen else p
    case StreamOpen => if AuthTag in w then Authenticated else p
    case Authenticated => if StreamTag in w then Negotiating else p
    case Negotiating => if BindTag in w then Bound else p
    case Bound => p
  }

  /** The phase of connection fd after h; None when it is not open. */
  function PhaseOf(h: seq<Event>, fd: Fd): Option<Phase> {
    if h == [] then None
    else
      var p := PhaseOf(Before(h), fd);
      if Last(h).fd != fd then p
      else
        match Last(h)
        case Connect(_, _) => Some(Connected)
        case Receive(_, m) => if p.Some? then Some(Advanced(p.value, m.words)) else None
        case Close(_) => None
  }

  /** Room and nickname of the latest join of connection fd, if it has joined: the latest presence it
      sent as a bound client in a message that is no session or disco request. */
  function LatestJoin(h: seq<Event>, fd: Fd): Option<(string, string)> {
    if h == [] then None
    else
      var j := LatestJoin(Before(h), fd);
      if Last(h).fd != fd then j
      else
        match Last(h)
        case Receive(_, m) =>
          var w := m.words;
          if PhaseOf(Before(h), fd) == Some(Bound) && SessionTag !in w && !({IqTag, Disco} <= w) && PresenceTag in w
          then Some(JoinOf(To(m)))
          else j
        case _ => None
  }

  /** The contents of the nickname field when connection fd was opened. */
  function JunkOf(h: seq<Event>, fd: Fd): string {
    if h == [] then ""
    else if Last(h).Connect? && Last(h).fd == fd then Last(h).junk
    else JunkOf(Before(h), fd)
  }

  function RoomOf(h: seq<Event>, fd: Fd): string {
    var j := LatestJoin(h, fd);
    if j.Some? then j.value.0 else ""
  }

  function NickOf(h: seq<Event>, fd: Fd): string {
    var j := LatestJoin(h, fd);
    if j.Some? then j.value.1 else JunkOf(h, fd)
  }

  predicate BoundIn(h: seq<Event>, fd: Fd) {
    PhaseOf(h, fd) == Some(Bound)
  }

  predicate MemberOf(h: seq<Event>, fd: Fd, room: string) {
    BoundIn(h, fd) && RoomOf(h, fd) == room
  }

  /** What the history says of connection fd. */
  function Meaning(h: seq<Event>, fd: Fd): Option<Client> {
    var p := PhaseOf(h, fd);
    if p.None? then None
    else Some(Client(fd, p.value, if p.value.Bound? then Jid(fd) else "", RoomOf(h, fd), NickOf(h, fd)))
  }

  // ---------------------------------------------------------------------------------------------
  // Possible histories

  /** The kernel hands out descriptors that are not open, and reports only open ones. */
  predicate Enabled(h: seq<Event>, e: Event) {
    e.Connect? <==> PhaseOf(h, e.fd).None?
  }

  predicate Possible(h: seq<Event>) {
    h == [] || (Possible(Before(h)) && Enabled(Before(h), Last(h)))
  }

  /** A new connection's slot is not in use. */
  ghost predicate SlotFree(h: seq<Event>, e: Event) {
    e.Connect? ==> forall fd: Fd | fd % SLOTS == e.fd % SLOTS :: PhaseOf(h, fd).None?
  }

  ghost predicate Separate(h: seq<Event>) {
    h == [] || (Separate(Before(h)) && SlotFree(Before(h), Last(h)))
  }

  // ---------------------------------------------------------------------------------------------
  // Refinement

  function Lookup(slots: seq<Option<Client>>, fd: Fd): Option<Client>
    requires |slots| == SLOTS
  {
    var slot := slots[fd % SLOTS];
    if slot.Some? && slot.value.fd == fd then slot else None
  }

  ghost predicate Refines(s: Server, h: seq<Event>) {
    && Table(s.slots)
    && forall fd: Fd :: Lookup(s.slots, fd) == Meaning(h, fd)
  }

  lemma IndexIs(s: string, x: char, i: nat)
    requires i <= |s| && x !in s[..i] && (i < |s| ==> s[i] == x)
    ensures IndexOf(s, x) == i
  {
  }

  /** A presence sent to "room@host/nick" names them. */
  lemma RoomAndNick(room: string, host: string, nick: string)
    requires '@' !in room && '/' !in room && '/' !in host
    ensures JoinOf(room + "@" + host + "/" + nick) == (room, nick)
  {
    var to := room + "@" + host + "/" + nick;
    IndexIs(to, '@', |room|);
    IndexIs(to, '/', |room| + 1 + |host|);
    assert to[..|room|] == room && to[|room| + 1 + |host| + 1..] == nick;
  }

  /** With the slash in front of the at sign, what is between them is the nickname, and part of the room. */
  lemma SlashFirst(a: string, b: string, c: string)
    requires '@' !in a && '/' !in a && '@' !in b
    ensures JoinOf(a + "/" + b + "@" + c) == (a + "/" + b, b)
  {
    var to := a + "/" + b + "@" + c;
    IndexIs(to, '/', |a|);
    IndexIs(to, '@', |a| + 1 + |b|);
    assert to[..|a| + 1 + |b|] == a + "/" + b && to[|a| + 1..|a| + 1 + |b|] == b;
  }

  /** An address without one of the two names a room up to its slash, and gives the nickname of guests. */
  lemma GuestAddress(a: string, b: string)
    requires '/' !in a
    ensures '@' !in a && '@' !in b ==> JoinOf(a + "/" + b) == (a, "WebGuest")
    ensures JoinOf(a) == (a, "WebGuest")
  {
    var to := a + "/" + b;
    IndexIs(to, '/', |a|);
    IndexIs(a, '/', |a|);
    assert to[..|a|] == a == a[..|a|];
    if '@' !in a && '@' !in b { IndexIs(to, '@', |to|); }
  }

  /** The names in a presence fit the fields they are copied to. */
  lemma JoinFits(to: string)
    requires |to| <= NAME_MAX
    ensures Truncate(JoinOf(to).0) == JoinOf(to).0 && Truncate(JoinOf(to).1) == JoinOf(to).1
  {
  }

  /** The client that a message makes of its sender. */
  function Updated(c: Client, m: Request): Client {
    var action, to := Dispatch(c.phase, m.words), JoinOf(To(m));
    Client(c.fd,
           NextPhase(c.phase, m.words),
           if action.BindClient? then Jid(c.fd) else c.jid,
           if action.HandlePresence? then to.0 else c.room,
           if action.HandlePresence? then to.1 else c.nick)
  }

  lemma HandleSlot(s: Server, i: nat, m: Request)
    requires i < |s.slots| && s.slots[i].Some?
    ensures Handle(s, i, m).0.slots == s.slots[i := Some(Updated(s.slots[i].value, m))]
  {
    JoinFits(To(m));
    hide JoinOf, Truncate, Counts, CastTo, Jid;
  }

  /** The branches of the server by the words that lead to them. */
  lemma DispatchByWords(p: Phase, w: set<Word>)
    ensures NextPhase(p, w) == Advanced(p, w)
    ensures Dispatch(p, w).BindClient? <==> p.Negotiating? && BindTag in w
    ensures var chosen := p.Bound? && SessionTag !in w && !({IqTag, Disco} <= w);
            && (Dispatch(p, w).HandlePresence? <==> chosen && PresenceTag in w)
            && (Dispatch(p, w).HandleMessage? <==> chosen && PresenceTag !in w && MessageTag in w)
  {
  }

  lemma ReceiveMeaning(h: seq<Event>, fd: Fd, m: Request)
    requires Meaning(h, fd).Some?
    ensures Meaning(h + [Receive(fd, m)], fd) == Some(Updated(Meaning(h, fd).value, m))
  {
    hide JoinOf, To, Jid;
    var e := Receive(fd, m);
    assert Before(h + [e]) == h && Last(h + [e]) == e;
    DispatchByWords(PhaseOf(h, fd).value, m.words);
    hide Dispatch, NextPhase, Advanced;
  }

  /** Handling a message changes only its sender's slot, and that as its own history says. */
  lemma HandleMeaning(s: Server, h: seq<Event>, fd: Fd, m: Request)
    requires |s.slots| == SLOTS && Meaning(h, fd).Some? && s.slots[fd % SLOTS] == Meaning(h, fd)
    ensures var t := Handle(s, fd % SLOTS, m).0;
            t.slots == s.slots[fd % SLOTS := Meaning(h + [Receive(fd, m)], fd)]
  {
    hide Handle, Meaning, Updated;
    HandleSlot(s, fd % SLOTS, m);
    ReceiveMeaning(h, fd, m);
  }

  /** An event does not change the meaning of other connections. */
  lemma OthersKeep(h: seq<Event>, e: Event, fd: Fd)
    requires e.fd != fd
    ensures Meaning(h + [e], fd) == Meaning(h, fd)
  {
  }

  /** One possible event keeps the refinement exactly when it is not a connection on a slot in use. */
  lemma StepRefines(s: Server, h: seq<Event>, e: Event)
    requires Refines(s, h) && Enabled(h, e)
    ensures Refines(Step(s, e).0, h + [e]) <==> SlotFree(h, e)
  {
    hide Meaning, Handle, List, CastTo;
    var t, i := Step(s, e).0, e.fd % SLOTS;
    EventMeaning(h, e);
    assert Lookup(s.slots, e.fd) == Meaning(h, e.fd);
    if e.Receive? { HandleMeaning(s, h, e.fd, e.request); }
    assert t.slots == s.slots[i := Meaning(h + [e], e.fd)];
    forall fd: Fd ensures e.fd != fd ==> Meaning(h + [e], fd) == Meaning(h, fd) {
      if e.fd != fd { OthersKeep(h, e, fd); }
    }
    if SlotFree(h, e) {
      forall fd: Fd ensures Lookup(t.slots, fd) == Meaning(h + [e], fd) {
        assert Lookup(s.slots, fd) == Meaning(h, fd);
        if fd != e.fd && fd % SLOTS == i { OnlyOne(s, h, e, fd); }
      }
    } else {
      var fd: Fd :| fd % SLOTS == i && PhaseOf(h, fd).Some?;
      assert Lookup(t.slots, fd).None? && Meaning(h, fd).Some?;
      assert Meaning(h + [e], fd) != Lookup(t.slots, fd);
    }
  }

  lemma EventMeaning(h: seq<Event>, e: Event)
    requires Enabled(h, e)
    ensures Meaning(h, e.fd).Some? <==> !e.Connect?
    ensures e.Connect? ==> Meaning(h + [e], e.fd) == Some(Client(e.fd, Connected, "", "", e.junk))
    ensures e.Close? ==> Meaning(h + [e], e.fd) == None
    ensures forall fd: Fd :: Meaning(h, fd).Some? <==> PhaseOf(h, fd).Some?
    ensures e.Receive? ==> Meaning(h + [e], e.fd).Some? && Meaning(h + [e], e.fd).value.fd == e.fd
  {
    assert Before(h + [e]) == h && Last(h + [e]) == e;
  }

  lemma OnlyOne(s: Server, h: seq<Event>, e: Event, fd: Fd)
    requires Refines(s, h) && Enabled(h, e) && SlotFree(h, e)
    requires fd != e.fd && fd % SLOTS == e.fd % SLOTS
    ensures Meaning(h, fd).None?
  {
    if !e.Connect? {
      assert Lookup(s.slots, e.fd) == Meaning(h, e.fd) && Lookup(s.slots, fd) == Meaning(h, fd);
    }
  }

  /** The table is, connection by connection, what the history says. */
  lemma {:induction false} TableIsHistory(lines: seq<string>, h: seq<Event>)
    requires Possible(h) && Separate(h)
    ensures Refines(After(lines, h), h)
  {
    if h == [] {
    } else {
      TableIsHistory(lines, Before(h));
      StepRefines(After(lines, Before(h)), Before(h), Last(h));
      assert Before(h) + [Last(h)] == h;
    }
  }

  /** With two descriptors that share a slot, closing the first loses the second. */
  lemma SharedSlot(lines: seq<string>)
    ensures var h := [Connect(5, ""), Connect(69, ""), Close(5)];
            && Possible(h) && !Separate(h)
            && Meaning(h, 69).Some? && Lookup(After(lines, h).slots, 69).None?
  {
    var h := [Connect(5, ""), Connect(69, ""), Close(5)];
    var h2, h1 := [Connect(5, ""), Connect(69, "")], [Connect(5, "")];
    assert Before(h) == h2 && Before(h2) == h1 && Before(h1) == [];
    assert PhaseOf(h1, 5).Some? && PhaseOf(h1, 69).None? && PhaseOf(h2, 5).Some?;
    assert !SlotFree(h1, Connect(69, ""));
    assert After(lines, h2) == Step(After(lines, h1), Connect(69, "")).0;
  }
}
