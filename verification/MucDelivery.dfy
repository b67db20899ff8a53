/**
 * What each connection receives, in order, when a message of another one is handled: stated over
 * the histories of the connections alone.
 */
module MucDelivery {
  import opened Common
  import opened XmppSession
  import opened Muc
  import opened MucHistory

  /** The stanzas that connection k receives, in order. */
  function Copies(out: seq<Delivery>, k: Fd): seq<Stanza> {
    if out == [] then []
    else
      var before := Copies(out[..|out| - 1], k);
      var d := out[|out| - 1];
      if d.fd == k then before + [d.stanza] else before
  }

  lemma {:induction false} CopiesConcat(a: seq<Delivery>, b: seq<Delivery>, k: Fd)
    ensures Copies(a + b, k) == Copies(a, k) + Copies(b, k)
  {
    if b == [] {
      assert a + b == a;
    } else {
      assert (a + b)[..|a + b| - 1] == a + b[..|b| - 1];
      CopiesConcat(a, b[..|b| - 1], k);
    }
  }

  lemma CopiesOne(d: Delivery, k: Fd)
    ensures Copies([d], k) == if d.fd == k then [d.stanza] else []
  {
  }

  /** What connection k, if it is in the table, gets from one of the loops that send to everyone. */
  function Share(slots: seq<Option<Client>>, cast: Cast, k: Fd): seq<Stanza>
    requires |slots| == SLOTS
  {
    var d := SendFor(cast, Lookup(slots, k));
    if d.Some? then [d.value.stanza] else []
  }

  /** What the last slot of a loop adds. */
  lemma CastLast(slots: seq<Option<Client>>, n: nat, cast: Cast, k: Fd)
    requires 0 < n <= |slots|
    ensures var d := SendFor(cast, slots[n - 1]);
            Copies(CastTo(slots, n, cast), k) ==
            Copies(CastTo(slots, n - 1, cast), k) + if d.Some? && d.value.fd == k then [d.value.stanza] else []
  {
    hide SendFor;
    var sent, d := CastTo(slots, n - 1, cast), SendFor(cast, slots[n - 1]);
    if d.Some? {
      CopiesConcat(sent, [d.value], k);
      CopiesOne(d.value, k);
    }
  }

  /** The slot sends something to k exactly if it is k's, and then k's share. */
  lemma SlotShare(slots: seq<Option<Client>>, i: nat, cast: Cast, k: Fd)
    requires Table(slots) && i < SLOTS && !cast.Introduce?
    ensures var d := SendFor(cast, slots[i]);
            (if d.Some? && d.value.fd == k then [d.value.stanza] else []) ==
            if k % SLOTS == i then Share(slots, cast, k) else []
  {
    var d := SendFor(cast, slots[i]);
    assert d.Some? ==> slots[i].Some? && d.value.fd == slots[i].value.fd && slots[i].value.fd % SLOTS == i;
    if k % SLOTS == i && slots[i].Some? && slots[i].value.fd != k { assert Lookup(slots, k) == None; }
  }

  lemma CastNone(slots: seq<Option<Client>>, cast: Cast, k: Fd)
    ensures Copies(CastTo(slots, 0, cast), k) == []
  {
  }

  /** A loop over the first n slots has served k exactly when k's slot is among them. */
  lemma {:induction false} CastServed(slots: seq<Option<Client>>, n: nat, cast: Cast, k: Fd)
    requires Table(slots) && n <= SLOTS && !cast.Introduce?
    ensures Copies(CastTo(slots, n, cast), k) == if k % SLOTS < n then Share(slots, cast, k) else []
  {
    hide Copies, CastTo, Share, SendFor;
    if n == 0 {
      CastNone(slots, cast, k);
    } else {
      CastServed(slots, n - 1, cast, k);
      CastLast(slots, n, cast, k);
      SlotShare(slots, n - 1, cast, k);
    }
  }

  lemma Served(slots: seq<Option<Client>>, cast: Cast, k: Fd)
    requires Table(slots) && !cast.Introduce?
    ensures Copies(CastAll(slots, cast), k) == Share(slots, cast, k)
  {
    CastServed(slots, SLOTS, cast, k);
  }

  /** Introductions go to the joiner only. */
  lemma {:induction false} IntroducedElsewhere(slots: seq<Option<Client>>, n: nat, room: string, c: Client, k: Fd)
    requires n <= |slots| && k != c.fd
    ensures Copies(CastTo(slots, n, Introduce(room, c)), k) == []
  {
    if n == 0 {
    } else {
      IntroducedElsewhere(slots, n - 1, room, c, k);
      var sent, d := CastTo(slots, n - 1, Introduce(room, c)), SendFor(Introduce(room, c), slots[n - 1]);
      if d.Some? {
        CopiesConcat(sent, [d.value], k);
        CopiesOne(d.value, k);
      }
    }
  }

  /** The other members of a room among the first n slots, in the order of their slots. */
  function Others(slots: seq<Option<Client>>, n: nat, room: string, fd: Fd): seq<Fd>
    requires n <= |slots|
  {
    if n == 0 then []
    else
      var before := Others(slots, n - 1, room, fd);
      if InRoom(slots[n - 1], room) && slots[n - 1].value.fd != fd then before + [slots[n - 1].value.fd] else before
  }

  lemma {:induction false} OthersAt(slots: seq<Option<Client>>, n: nat, room: string, fd: Fd, k: Fd)
    requires Table(slots) && n <= SLOTS
    ensures k in Others(slots, n, room, fd) <==> k % SLOTS < n && k != fd && InRoom(Lookup(slots, k), room)
  {
    if n == 0 {
    } else {
      OthersAt(slots, n - 1, room, fd, k);
      assert slots[n - 1].Some? ==> slots[n - 1].value.fd % SLOTS == n - 1;
    }
  }

  predicate Distinct(o: seq<Fd>) {
    forall i, j | 0 <= i < j < |o| :: o[i] != o[j]
  }

  lemma DistinctSnoc(before: seq<Fd>, x: Fd)
    requires Distinct(before) && x !in before
    ensures Distinct(before + [x])
  {
    var o := before + [x];
    forall i, j | 0 <= i < j < |o| ensures o[i] != o[j] {
      assert before[i] == o[i] && before[i] in before;
      if j < |before| { assert before[j] == o[j]; }
    }
  }

  lemma {:induction false} OthersDistinct(slots: seq<Option<Client>>, n: nat, room: string, fd: Fd)
    requires Table(slots) && n <= SLOTS
    ensures Distinct(Others(slots, n, room, fd))
  {
    if n == 0 {
    } else {
      hide Distinct;
      OthersDistinct(slots, n - 1, room, fd);
      if InRoom(slots[n - 1], room) && slots[n - 1].value.fd != fd {
        var x := slots[n - 1].value.fd;
        assert x % SLOTS == n - 1;
        OthersAt(slots, n - 1, room, fd, x);
        DistinctSnoc(Others(slots, n - 1, room, fd), x);
      }
    }
  }

  /** They are exactly the members other than fd, each once. */
  lemma OthersExact(slots: seq<Option<Client>>, n: nat, room: string, fd: Fd)
    requires Table(slots) && n <= SLOTS
    ensures var o := Others(slots, n, room, fd);
            && (forall k: Fd :: k in o <==> k % SLOTS < n && k != fd && InRoom(Lookup(slots, k), room))
            && (forall i, j | 0 <= i < j < |o| :: o[i] != o[j])
  {
    OthersDistinct(slots, n, room, fd);
    forall k: Fd
      ensures k in Others(slots, n, room, fd) <==> k % SLOTS < n && k != fd && InRoom(Lookup(slots, k), room)
    {
      OthersAt(slots, n, room, fd, k);
    }
  }

  /** The joiner is introduced to each of them once. */
  lemma {:induction false} IntroducedToJoiner(slots: seq<Option<Client>>, n: nat, room: string, c: Client)
    requires Table(slots) && n <= SLOTS
    ensures var o, got := Others(slots, n, room, c.fd), Copies(CastTo(slots, n, Introduce(room, c)), c.fd);
            && |got| == |o|
            && forall i | 0 <= i < |o| ::
                 Lookup(slots, o[i]).Some? && got[i] == Presence(room, Lookup(slots, o[i]).value.nick, c.jid)
  {
    if n == 0 {
    } else {
      IntroducedToJoiner(slots, n - 1, room, c);
      var sent, d := CastTo(slots, n - 1, Introduce(room, c)), SendFor(Introduce(room, c), slots[n - 1]);
      if d.Some? {
        CopiesConcat(sent, [d.value], c.fd);
        CopiesOne(d.value, c.fd);
        assert Lookup(slots, slots[n - 1].value.fd) == slots[n - 1];
      }
    }
  }

  // ---------------------------------------------------------------------------------------------
  // Groupchat

  /** A message to "room@conference…", or to a name without an at sign, is for that room. */
  lemma RoomAddress(room: string, rest: string)
    requires '@' !in room
    ensures var to := room + "@conference" + rest; IsRoom(to) && Target(to) == room
    ensures IsRoom(room) && Target(room) == room
  {
    var c := "@conference";
    var to := room + c + rest;
    assert to[|room|..|room| + |c|] == c && OccursAt(to, c, |room|);
    IndexIs(to, '@', |room|);
    assert to[..|room|] == room;
    forall i: nat | i <= |room| ensures !OccursAt(room, c, i) {
      if i + |c| <= |room| { assert room[i] in room && room[i..i + |c|][0] == room[i]; }
    }
  }

  /** What is sent for a chat message. */
  lemma ChatShape(s: Server, h: seq<Event>, fd: Fd, m: Request)
    requires Refines(s, h) && BoundIn(h, fd)
    requires SessionTag !in m.words && !({IqTag, Disco} <= m.words)
    requires PresenceTag !in m.words && MessageTag in m.words
    ensures Step(s, Receive(fd, m)) ==
            (s, if IsRoom(To(m)) then CastAll(s.slots, Chat(Target(To(m)), Meaning(h, fd).value, m.body))
                else DirectFrom(s.slots, 0, To(m), m.text))
  {
    hide CastAll, DirectFrom, Target, Contains, To, RoomOf, NickOf, Jid;
    assert Lookup(s.slots, fd) == Meaning(h, fd);
    DispatchByWords(Bound, m.words);
    hide Dispatch;
  }

  /** A room message gives exactly one stanza to each other bound connection whose latest join is
      that room, and nothing to anyone else; nothing changes in the server. */
  lemma RoomMessageReaches(lines: seq<string>, h: seq<Event>, fd: Fd, m: Request, k: Fd)
    requires Possible(h) && Separate(h) && BoundIn(h, fd)
    requires SessionTag !in m.words && !({IqTag, Disco} <= m.words)
    requires PresenceTag !in m.words && MessageTag in m.words && IsRoom(To(m))
    ensures var s, room := After(lines, h), Target(To(m));
            var (t, out) := Step(s, Receive(fd, m));
            && t == s
            && Copies(out, k) ==
               if k != fd && MemberOf(h, k, room) then [GroupChat(room, NickOf(h, fd), Jid(k), m.body)] else []
  {
    var s := After(lines, h);
    TableIsHistory(lines, h);
    ChatShape(s, h, fd, m);
    hide After, Possible, Separate, Step, Jid, IsRoom, Target, To, RoomOf, NickOf;
    assert Lookup(s.slots, k) == Meaning(h, k);
    Served(s.slots, Chat(Target(To(m)), Meaning(h, fd).value, m.body), k);
  }

  // ---------------------------------------------------------------------------------------------
  // Direct messages

  /** Reading the digits back gives the number. */
  function FromDecimal(s: string): int {
    if s == "" then 0 else 10 * FromDecimal(s[..|s| - 1]) + (s[|s| - 1] as int - '0' as int)
  }

  lemma {:induction false} DecimalBack(n: nat)
    ensures FromDecimal(Decimal(n)) == n
  {
    if n < 10 {
      assert FromDecimal("") == 0 && [Digit(n)][..0] == "";
    } else {
      DecimalBack(n / 10);
      assert Decimal(n)[..|Decimal(n)| - 1] == Decimal(n / 10);
    }
  }

  lemma JidInjective(a: Fd, b: Fd)
    requires Jid(a) == Jid(b)
    ensures a == b
  {
    assert Jid(a)[4..|Jid(a)| - 11] == Decimal(a) && Jid(b)[4..|Jid(b)| - 11] == Decimal(b);
    DecimalBack(a);
    DecimalBack(b);
  }

  lemma {:induction false} DecimalText(n: nat, d: nat)
    requires 0 < d && n < Pow10(d)
    ensures |Decimal(n)| <= d && '@' !in Decimal(n)
  {
    if n < 10 {
    } else {
      DecimalText(n / 10, d - 1);
    }
  }

  function Pow10(d: nat): nat {
    if d == 0 then 1 else 10 * Pow10(d - 1)
  }

  /** An address handed out at bind time fits the `to` buffer and is not taken for a room. */
  lemma JidIsDirect(k: Fd)
    ensures Truncate(Jid(k)) == Jid(k) && !IsRoom(Jid(k)) && Jid(k) != ""
  {
    assert Pow10(5) == 100000;
    assert Pow10(10) == 10000000000;
    DecimalText(k, 10);
    var jid, at := Jid(k), 4 + |Decimal(k)|;
    assert jid[at] == '@' && jid[at + 1] == 'r';
    assert forall i | 0 <= i < |jid| && jid[i] == '@' :: i == at;
    var conference := "@conference";
    forall i: nat | i <= |jid| ensures !OccursAt(jid, conference, i) {
      if i + |conference| <= |jid| {
        var part := jid[i..i + |conference|];
        assert part[0] == jid[i] && part[1] == jid[i + 1];
      }
    }
  }

  lemma {:induction false} DirectServed(slots: seq<Option<Client>>, n: nat, jid: string, text: string, k: Fd)
    requires Table(slots) && n <= SLOTS
    requires forall i | 0 <= i < SLOTS && slots[i].Some? && slots[i].value.jid == jid :: slots[i].value.fd == k
    ensures DirectFrom(slots, n, jid, text) ==
            if Lookup(slots, k).Some? && Lookup(slots, k).value.jid == jid && n <= k % SLOTS
            then [Delivery(k, Direct(text))] else []
    decreases SLOTS - n
  {
    if n == SLOTS {
    } else {
      DirectServed(slots, n + 1, jid, text, k);
    }
  }

  /** A connection has a JID exactly when it is bound, and no other connection has the same. */
  lemma JidExactlyBound(lines: seq<string>, h: seq<Event>, fd: Fd, other: Fd)
    requires Possible(h) && Separate(h)
    ensures var slots := After(lines, h).slots;
            var c, d := Lookup(slots, fd), Lookup(slots, other);
            && (c.Some? && c.value.jid != "" <==> BoundIn(h, fd))
            && (c.Some? && d.Some? && c.value.jid == d.value.jid != "" ==> fd == other)
  {
    TableIsHistory(lines, h);
    var slots := After(lines, h).slots;
    assert Lookup(slots, fd) == Meaning(h, fd) && Lookup(slots, other) == Meaning(h, other);
    if BoundIn(h, fd) && BoundIn(h, other) && Jid(fd) == Jid(other) { JidInjective(fd, other); }
  }

  /** The search for a JID finds the bound connection that has it. */
  lemma DirectFound(s: Server, h: seq<Event>, to: string, text: string, k: Fd)
    requires Refines(s, h) && to != ""
    ensures Copies(DirectFrom(s.slots, 0, to, text), k) ==
            if BoundIn(h, k) && to == Jid(k) then [Direct(text)] else []
  {
    hide Jid, RoomOf, NickOf;
    var slots := s.slots;
    assert Lookup(slots, k) == Meaning(h, k);
    if i :| 0 <= i < SLOTS && slots[i].Some? && slots[i].value.jid == to {
      var owner := slots[i].value.fd;
      forall j | 0 <= j < SLOTS && slots[j].Some? && slots[j].value.jid == to ensures slots[j].value.fd == owner {
        SameJid(s, h, i, j);
      }
      DirectServed(slots, 0, to, text, owner);
      CopiesOne(Delivery(owner, Direct(text)), k);
      assert Lookup(slots, owner) == Meaning(h, owner);
      if BoundIn(h, k) && Jid(k) == to { JidInjective(k, owner); }
    } else {
      DirectServed(slots, 0, to, text, k);
    }
  }

  lemma SameJid(s: Server, h: seq<Event>, i: nat, j: nat)
    requires Refines(s, h) && i < SLOTS && j < SLOTS && s.slots[i].Some? && s.slots[j].Some?
    requires s.slots[i].value.jid == s.slots[j].value.jid != ""
    ensures s.slots[i].value.fd == s.slots[j].value.fd
  {
    var a, b := s.slots[i].value.fd, s.slots[j].value.fd;
    assert Lookup(s.slots, a) == Meaning(h, a) && Lookup(s.slots, b) == Meaning(h, b);
    JidInjective(a, b);
  }

  /** A direct message reaches the bound connection it is addressed to, unchanged and once, and
      nobody else. */
  lemma DirectReaches(lines: seq<string>, h: seq<Event>, fd: Fd, m: Request, k: Fd)
    requires Possible(h) && Separate(h) && BoundIn(h, fd)
    requires SessionTag !in m.words && !({IqTag, Disco} <= m.words)
    requires PresenceTag !in m.words && MessageTag in m.words && !IsRoom(To(m))
    ensures var s := After(lines, h);
            var (t, out) := Step(s, Receive(fd, m));
            && t == s
            && Copies(out, k) == if BoundIn(h, k) && To(m) == Jid(k) then [Direct(m.text)] else []
  {
    var s := After(lines, h);
    TableIsHistory(lines, h);
    ChatShape(s, h, fd, m);
    assert To(m) != "";
    DirectFound(s, h, To(m), m.text, k);
    hide After, Possible, Separate, Step, Jid, To, IsRoom, RoomOf, NickOf, DirectFrom;
  }

  // ---------------------------------------------------------------------------------------------
  // Joins

  /** The joiner as it is recorded. */
  function Joiner(h: seq<Event>, fd: Fd, m: Request): Client {
    Client(fd, Bound, Jid(fd), JoinOf(To(m)).0, JoinOf(To(m)).1)
  }

  lemma InTable(s: Server, h: seq<Event>, k: Fd)
    requires Refines(s, h)
    ensures Table(s.slots) && Lookup(s.slots, k) == Meaning(h, k)
  {
  }

  /** What is sent on a join, and the table it is sent by. */
  lemma JoinSent(s: Server, i: nat, m: Request)
    requires i < |s.slots| && s.slots[i].Some? && Dispatch(s.slots[i].value.phase, m.words).HandlePresence?
    ensures var (t, out) := Handle(s, i, m);
            var c := Updated(s.slots[i].value, m);
            out == CastAll(t.slots, Announce(c.room, c.nick)) + CastAll(t.slots, Introduce(c.room, c))
                   + [Delivery(c.fd, SelfPresence(c.room, c.nick, c.jid))] + CastAll(t.slots, RoomLists(List(t)))
  {
    JoinFits(To(m));
    hide Jid, To, JoinOf, Truncate, CastAll, AddRoom, List;
  }

  lemma JoinShape(s: Server, h: seq<Event>, fd: Fd, m: Request)
    requires Refines(s, h) && BoundIn(h, fd)
    requires SessionTag !in m.words && !({IqTag, Disco} <= m.words) && PresenceTag in m.words
    ensures var c, e := Joiner(h, fd, m), Receive(fd, m);
            var (t, out) := Step(s, e);
            && Refines(t, h + [e]) && Lookup(t.slots, fd) == Some(c)
            && (forall k: Fd | k != fd :: Meaning(h + [e], k) == Meaning(h, k))
            && out == CastAll(t.slots, Announce(c.room, c.nick)) + CastAll(t.slots, Introduce(c.room, c))
                      + [Delivery(fd, SelfPresence(c.room, c.nick, c.jid))] + CastAll(t.slots, RoomLists(List(t)))
  {
    var e := Receive(fd, m);
    StepRefines(s, h, e);
    forall k: Fd | k != fd ensures Meaning(h + [e], k) == Meaning(h, k) { OthersKeep(h, e, k); }
    InTable(s, h, fd);
    InTable(Step(s, e).0, h + [e], fd);
    ReceiveMeaning(h, fd, m);
    DispatchByWords(Bound, m.words);
    JoinSent(s, fd % SLOTS, m);
    hide Refines, Jid, To, JoinOf, RoomOf, NickOf, CastAll, Handle, List, Dispatch;
  }

  /** On a join, each other bound member of the room is told of the joiner once, and then every
      bound connection gets the room list; nobody else gets anything. */
  lemma JoinReaches(lines: seq<string>, h: seq<Event>, fd: Fd, m: Request, k: Fd)
    requires Possible(h) && Separate(h) && BoundIn(h, fd)
    requires SessionTag !in m.words && !({IqTag, Disco} <= m.words) && PresenceTag in m.words
    requires k != fd
    ensures var (room, nick) := JoinOf(To(m));
            var (t, out) := Step(After(lines, h), Receive(fd, m));
            Copies(out, k) == (if MemberOf(h, k, room) then [Presence(room, nick, Jid(k))] else [])
                              + (if BoundIn(h, k) then [List(t)] else [])
  {
    var s, c := After(lines, h), Joiner(h, fd, m);
    TableIsHistory(lines, h);
    JoinShape(s, h, fd, m);
    var (t, out) := Step(s, Receive(fd, m));
    InTable(t, h + [Receive(fd, m)], k);
    JoinParts(t, c, out, k);
    hide After, Step, Jid, To, JoinOf, NickOf, List, Refines, Copies, CastAll, Possible, Separate;
    Served(t.slots, Announce(c.room, c.nick), k);
    Served(t.slots, RoomLists(List(t)), k);
    IntroducedElsewhere(t.slots, SLOTS, c.room, c, k);
    assert Copies(CastAll(t.slots, Introduce(c.room, c)), k) == [];
  }

  /** What connection k gets of the four parts of the answer to a join. */
  lemma JoinParts(t: Server, c: Client, out: seq<Delivery>, k: Fd)
    requires out == CastAll(t.slots, Announce(c.room, c.nick)) + CastAll(t.slots, Introduce(c.room, c))
                    + [Delivery(c.fd, SelfPresence(c.room, c.nick, c.jid))] + CastAll(t.slots, RoomLists(List(t)))
    ensures Copies(out, k) == Copies(CastAll(t.slots, Announce(c.room, c.nick)), k)
                              + Copies(CastAll(t.slots, Introduce(c.room, c)), k)
                              + (if k == c.fd then [SelfPresence(c.room, c.nick, c.jid)] else [])
                              + Copies(CastAll(t.slots, RoomLists(List(t))), k)
  {
    hide CastAll, List;
    var a, i, l := CastAll(t.slots, Announce(c.room, c.nick)), CastAll(t.slots, Introduce(c.room, c)),
                   CastAll(t.slots, RoomLists(List(t)));
    var self := Delivery(c.fd, SelfPresence(c.room, c.nick, c.jid));
    CopiesConcat(a + i + [self], l, k);
    CopiesConcat(a + i, [self], k);
    CopiesConcat(a, i, k);
    CopiesOne(self, k);
  }

  /** The joiner gets its own announcement, one presence of each other member of the room, its
      self-presence with code 110 and last the room list. */
  lemma JoinAnswered(lines: seq<string>, h: seq<Event>, fd: Fd, m: Request) returns (others: seq<Fd>)
    requires Possible(h) && Separate(h) && BoundIn(h, fd)
    requires SessionTag !in m.words && !({IqTag, Disco} <= m.words) && PresenceTag in m.words
    ensures forall i, j | 0 <= i < j < |others| :: others[i] != others[j]
    ensures forall k: Fd :: k in others <==> k != fd && MemberOf(h, k, JoinOf(To(m)).0)
    ensures var (room, nick) := JoinOf(To(m));
            var (t, out) := Step(After(lines, h), Receive(fd, m));
            Copies(out, fd) ==
              [Presence(room, nick, Jid(fd))]
              + seq(|others|, i requires 0 <= i < |others| => Presence(room, NickOf(h, others[i]), Jid(fd)))
              + [SelfPresence(room, nick, Jid(fd)), List(t)]
  {
    var s, c := After(lines, h), Joiner(h, fd, m);
    TableIsHistory(lines, h);
    JoinShape(s, h, fd, m);
    var (t, out) := Step(s, Receive(fd, m));
    InTable(t, h + [Receive(fd, m)], fd);
    JoinParts(t, c, out, fd);
    hide After, Step, Jid, To, JoinOf, NickOf, List, Refines, Copies, Possible, Separate;
    Served(t.slots, Announce(c.room, c.nick), fd);
    Served(t.slots, RoomLists(List(t)), fd);
    others := Others(t.slots, SLOTS, c.room, fd);
    OthersExact(t.slots, SLOTS, c.room, fd);
    IntroducedToJoiner(t.slots, SLOTS, c.room, c);
    forall k: Fd | k != fd ensures Lookup(t.slots, k) == Meaning(h, k) { InTable(t, h + [Receive(fd, m)], k); }
    hide Others;
    var introduced := seq(|others|, j requires 0 <= j < |others| => Presence(c.room, NickOf(h, others[j]), c.jid));
    assert Copies(CastAll(t.slots, Introduce(c.room, c)), fd) == introduced;
  }

  // ---------------------------------------------------------------------------------------------
  // Everything else

  /** Binding is answered with the client's own address and the room list that already counts it. */
  lemma BindAnswered(s: Server, h: seq<Event>, fd: Fd, m: Request)
    requires Refines(s, h) && PhaseOf(h, fd) == Some(Negotiating) && BindTag in m.words
    ensures var (t, out) := Step(s, Receive(fd, m));
            && Refines(t, h + [Receive(fd, m)]) && BoundIn(h + [Receive(fd, m)], fd)
            && Copies(out, fd) == [BindResult(Jid(fd)), List(t)]
  {
    StepRefines(s, h, Receive(fd, m));
    assert Lookup(s.slots, fd) == Meaning(h, fd);
    var (t, out) := Step(s, Receive(fd, m));
    assert out == [Delivery(fd, BindResult(Jid(fd)))] + [Delivery(fd, List(t))];
    CopiesConcat([Delivery(fd, BindResult(Jid(fd)))], [Delivery(fd, List(t))], fd);
    CopiesOne(Delivery(fd, BindResult(Jid(fd))), fd);
    CopiesOne(Delivery(fd, List(t)), fd);
    var e := Receive(fd, m);
    assert Before(h + [e]) == h && Last(h + [e]) == e;
  }

  /** What is neither a join nor a chat message is answered to its sender only. */
  lemma AnsweredToSender(s: Server, h: seq<Event>, fd: Fd, m: Request, k: Fd)
    requires Refines(s, h) && PhaseOf(h, fd).Some? && k != fd
    requires BoundIn(h, fd) ==>
               SessionTag in m.words || {IqTag, Disco} <= m.words || (PresenceTag !in m.words && MessageTag !in m.words)
    ensures Copies(Step(s, Receive(fd, m)).1, k) == []
  {
    hide JoinOf, To, RoomOf, NickOf, Jid, List, CastAll, Chatted;
    InTable(s, h, fd);
    DispatchByWords(PhaseOf(h, fd).value, m.words);
    hide Refines, Dispatch;
    var out := Step(s, Receive(fd, m)).1;
    assert |out| <= 2 && forall i | 0 <= i < |out| :: out[i].fd == fd;
    hide Step;
    NoCopies(out, k);
  }

  /** What the sender gets, by its phase and the words: the three answers of the login, the answer to
      a session request in every phase that does not wait for one of its words, and the answers to
      disco requests; whatever else is no bind, join or chat message is not answered, and of these
      only the login changes anything. */
  lemma Answered(s: Server, h: seq<Event>, fd: Fd, m: Request)
    requires Refines(s, h) && PhaseOf(h, fd).Some?
    ensures var p, w, (t, out) := PhaseOf(h, fd).value, m.words, Step(s, Receive(fd, m));
            && (p.Connected? && (StreamTag in w || XmlDecl in w) ==> out == [Delivery(fd, SaslHeader)])
            && (p.StreamOpen? && AuthTag in w ==> out == [Delivery(fd, AuthSuccess)])
            && (p.Authenticated? && StreamTag in w ==> out == [Delivery(fd, BindHeader)])
            && (Advanced(p, w) == p && SessionTag in w ==> t == s && out == [Delivery(fd, SessionResult)])
            && (p.Bound? && SessionTag !in w && {IqTag, Disco} <= w ==>
                  t == s && out == if DiscoInfo in w then [Delivery(fd, InfoResult)]
                                   else if DiscoItems in w then [Delivery(fd, ItemsResult(s.rooms))] else [])
            && (Advanced(p, w) == p && SessionTag !in w
                && (p.Bound? ==> !({IqTag, Disco} <= w) && PresenceTag !in w && MessageTag !in w) ==>
                  t == s && out == [])
  {
    hide JoinOf, To, RoomOf, NickOf, Jid, List, CastAll, Chatted;
    InTable(s, h, fd);
    hide Refines;
  }

  lemma {:induction false} NoCopies(out: seq<Delivery>, k: Fd)
    requires forall i | 0 <= i < |out| :: out[i].fd != k
    ensures Copies(out, k) == []
  {
    if out == [] {
    } else {
      NoCopies(out[..|out| - 1], k);
    }
  }

  /** When a connection ends, each other bound connection gets one new room list, nobody else anything. */
  lemma CloseReaches(s: Server, h: seq<Event>, fd: Fd, k: Fd)
    requires Refines(s, h) && PhaseOf(h, fd).Some?
    ensures var (t, out) := Step(s, Close(fd));
            Copies(out, k) == if k != fd && BoundIn(h, k) then [List(t)] else []
  {
    var e := Close(fd);
    StepRefines(s, h, e);
    EventMeaning(h, e);
    if k != fd { OthersKeep(h, e, k); }
    var (t, out) := Step(s, e);
    InTable(s, h, fd);
    InTable(t, h + [e], k);
    assert out == CastAll(t.slots, RoomLists(List(t)));
    hide Refines, Step, CastAll, Copies, List;
    Served(t.slots, RoomLists(List(t)), k);
  }
}
