/** The list of known rooms over all runs, and the user counts that are sent with it. */
module MucRooms {
  import opened Common
  import opened XmppSession
  import opened Muc
  import opened MucHistory

  predicate Distinct(rooms: seq<string>) {
    forall i, j | 0 <= i < j < |rooms| :: rooms[i] != rooms[j]
  }

  predicate Fitting(rooms: seq<string>) {
    |rooms| <= 64 && forall i | 0 <= i < |rooms| :: |rooms[i]| <= 63
  }

  // ---------------------------------------------------------------------------------------------
  // The rooms

  /** One addition keeps the rooms distinct exactly when it does not cut a name down to a known one. */
  lemma AddKeepsDistinct(rooms: seq<string>, name: string)
    requires Distinct(rooms) && Fitting(rooms)
    ensures Fitting(AddRoom(rooms, name)) && rooms <= AddRoom(rooms, name)
    ensures Distinct(AddRoom(rooms, name)) <==>
            !(|name| > NAME_MAX && |rooms| < MAX_ROOMS && Truncate(name) in rooms)
  {
    var added := AddRoom(rooms, name);
    assert |name| <= NAME_MAX ==> Truncate(name) == name;
    assert |name| > NAME_MAX ==> name !in rooms;
    if |added| > |rooms| && Truncate(name) in rooms {
      var i :| 0 <= i < |rooms| && rooms[i] == Truncate(name);
      assert added[i] == added[|rooms|];
    }
  }

  lemma {:induction false} LoadFits(lines: seq<string>)
    ensures Fitting(Load(lines))
  {
    if lines == [] {
    } else {
      LoadFits(lines[..|lines| - 1]);
    }
  }

  /** Line i is longer than 63 characters, and stored while a room of its first 63 is known. */
  predicate Cuts(lines: seq<string>, i: nat)
    requires i < |lines|
  {
    |lines[i]| > NAME_MAX && |Load(lines[..i])| < MAX_ROOMS && Truncate(lines[i]) in Load(lines[..i])
  }

  /** The rooms loaded from the file are distinct exactly when no line is cut down to a known name. */
  lemma {:induction false} LoadedDistinct(lines: seq<string>)
    ensures Distinct(Load(lines)) <==> forall i | 0 <= i < |lines| :: !Cuts(lines, i)
  {
    if lines == [] {
    } else {
      var n := |lines| - 1;
      var front := lines[..n];
      LoadedDistinct(front);
      LoadFits(front);
      forall i | 0 <= i < n ensures Cuts(front, i) == Cuts(lines, i) { assert front[..i] == lines[..i]; }
      assert lines[n] == "" ==> Load(lines) == Load(front);
      assert lines[n] != "" ==> Load(lines) == AddRoom(Load(front), lines[n]);
      hide Load, AddRoom, Fitting;
      if Distinct(Load(front)) {
        AddKeepsDistinct(Load(front), lines[n]);
        assert Distinct(Load(lines)) <==> !Cuts(lines, n);
      } else {
        StaysRepeated(Load(front), Load(lines));
      }
    }
  }

  lemma StaysRepeated(a: seq<string>, b: seq<string>)
    requires !Distinct(a) && a <= b
    ensures !Distinct(b)
  {
  }

  /** Two equal lines of 64 characters become one name stored twice; of 63, once; empty ones are skipped. */
  lemma LoadRepeats(line: string)
    ensures |line| == 64 ==> Load([line, line]) == [line[..63], line[..63]]
    ensures 0 < |line| <= 63 ==> Load([line, line]) == [line]
    ensures line == "" ==> Load([line, line]) == []
  {
    assert [line, line][..1] == [line] && [line][..0] == [];
    assert line != "" ==> Load([line]) == [Truncate(line)];
    assert |line| <= 63 ==> line[..|line|] == line;
  }

  /** The rooms after an event: as they were, or with the room of a presence, whose name fits. */
  lemma StepRooms(s: Server, e: Event)
    requires |s.slots| == SLOTS
    ensures var room := if e.Receive? then JoinOf(To(e.request)).0 else "";
            |room| <= NAME_MAX && Step(s, e).0.rooms in {s.rooms, AddRoom(s.rooms, room)}
  {
    if e.Receive? { JoinFits(To(e.request)); }
    hide Counts, CastTo, JoinOf, To, AddRoom;
  }

  /** An event only adds to the rooms, and does not repeat one. */
  lemma StepGrows(s: Server, e: Event)
    requires |s.slots| == SLOTS && Fitting(s.rooms)
    ensures var rooms := Step(s, e).0.rooms;
            Fitting(rooms) && s.rooms <= rooms && (Distinct(rooms) <==> Distinct(s.rooms))
  {
    StepRooms(s, e);
    var room, rooms := if e.Receive? then JoinOf(To(e.request)).0 else "", Step(s, e).0.rooms;
    hide Step, JoinOf, To;
    if rooms != s.rooms {
      if Distinct(s.rooms) {
        AddKeepsDistinct(s.rooms, room);
      } else {
        StaysRepeated(s.rooms, rooms);
      }
    }
  }

  /** In every run the list of known rooms only grows, never past 64 names of 63 characters; it is
      without repetition exactly when the loaded list was. */
  lemma {:induction false} RosterGrows(lines: seq<string>, h: seq<Event>)
    ensures Fitting(After(lines, h).rooms) && Load(lines) <= After(lines, h).rooms
    ensures h != [] ==> After(lines, Before(h)).rooms <= After(lines, h).rooms
    ensures Distinct(After(lines, h).rooms) <==> Distinct(Load(lines))
  {
    hide Step, Load, Distinct, Fitting;
    if h == [] {
      LoadFits(lines);
    } else {
      RosterGrows(lines, Before(h));
      StepGrows(After(lines, Before(h)), Last(h));
    }
  }

  /** The room joined by an event after h, if it is one. */
  function JoinBy(h: seq<Event>, e: Event): set<string> {
    if !e.Receive? then {}
    else
      var w := e.request.words;
      if BoundIn(h, e.fd) && SessionTag !in w && !({IqTag, Disco} <= w) && PresenceTag in w
      then {JoinOf(To(e.request)).0}
      else {}
  }

  function EverJoined(h: seq<Event>): set<string> {
    if h == [] then {} else EverJoined(Before(h)) + JoinBy(Before(h), Last(h))
  }

  lemma HandleRooms(s: Server, i: nat, m: Request)
    requires i < |s.slots| && s.slots[i].Some?
    ensures Handle(s, i, m).0.rooms ==
            if Dispatch(s.slots[i].value.phase, m.words).HandlePresence?
            then AddRoom(s.rooms, JoinOf(To(m)).0) else s.rooms
  {
    hide Counts, CastTo, JoinOf, To, Chatted, Jid, AddRoom;
  }

  /** The rooms after an event are those before it and, if it is a join and there is space, its room. */
  lemma StepKnows(s: Server, h: seq<Event>, e: Event)
    requires Refines(s, h) && Enabled(h, e) && Fitting(s.rooms)
    ensures forall r :: r in Step(s, e).0.rooms ==> r in s.rooms || r in JoinBy(h, e)
    ensures forall r :: r in s.rooms || r in JoinBy(h, e) ==>
              r in Step(s, e).0.rooms || |Step(s, e).0.rooms| == MAX_ROOMS
  {
    hide Handle, JoinOf, RoomOf, NickOf, Jid, Counts, CastTo;
    assert Lookup(s.slots, e.fd) == Meaning(h, e.fd);
    if e.Receive? {
      JoinFits(To(e.request));
      HandleRooms(s, e.fd % SLOTS, e.request);
      DispatchByWords(PhaseOf(h, e.fd).value, e.request.words);
      hide To, Refines, Dispatch;
    }
  }

  /** The known rooms are exactly those loaded and those ever joined, until 64 are known. */
  lemma {:induction false} RoomsAreJoined(lines: seq<string>, h: seq<Event>, r: string)
    requires Possible(h) && Separate(h)
    ensures r in After(lines, h).rooms ==> r in Load(lines) || r in EverJoined(h)
    ensures (r in Load(lines) || r in EverJoined(h)) && |After(lines, h).rooms| < 64 ==>
              r in After(lines, h).rooms
  {
    if h == [] {
    } else {
      RoomsAreJoined(lines, Before(h), r);
      RosterGrows(lines, Before(h));
      RosterGrows(lines, h);
      TableIsHistory(lines, Before(h));
      StepKnows(After(lines, Before(h)), Before(h), Last(h));
    }
  }

  // ---------------------------------------------------------------------------------------------
  // The counts

  /** The bound connections whose latest join is `room`. */
  ghost function Members(h: seq<Event>, room: string): set<Fd> {
    set fd: Fd | 0 <= fd < 0x8000_0000 && MemberOf(h, fd, room)
  }

  /** The bound connections whose latest join is one of `rooms`. */
  ghost function Known(h: seq<Event>, rooms: seq<string>): set<Fd> {
    set fd: Fd | 0 <= fd < 0x8000_0000 && BoundIn(h, fd) && RoomOf(h, fd) in rooms
  }

  ghost function Occupants(slots: seq<Option<Client>>, n: nat, room: string): set<Fd>
    requires |slots| == SLOTS
  {
    set fd: Fd | 0 <= fd < 0x8000_0000 && fd % SLOTS < n && InRoom(Lookup(slots, fd), room)
  }

  lemma NextSlot(slots: seq<Option<Client>>, n: nat, room: string)
    requires Table(slots) && 0 < n <= SLOTS
    ensures var before, slot := Occupants(slots, n - 1, room), slots[n - 1];
            if InRoom(slot, room)
            then slot.value.fd !in before && Occupants(slots, n, room) == before + {slot.value.fd}
            else Occupants(slots, n, room) == before
  {
    var before, slot := Occupants(slots, n - 1, room), slots[n - 1];
    if InRoom(slot, room) {
      assert Lookup(slots, slot.value.fd) == slot;
      assert Occupants(slots, n, room) == before + {slot.value.fd};
    }
  }

  lemma {:induction false} UsersCounted(slots: seq<Option<Client>>, n: nat, room: string)
    requires Table(slots) && n <= SLOTS
    ensures Users(slots, n, room) == |Occupants(slots, n, room)|
  {
    if n == 0 {
      assert Occupants(slots, 0, room) == {};
    } else {
      NextSlot(slots, n, room);
      UsersCounted(slots, n - 1, room);
    }
  }

  /** The count sent for a room is the number of its bound members by their histories. */
  lemma UsersAreMembers(s: Server, h: seq<Event>, room: string)
    requires Refines(s, h)
    ensures Users(s.slots, SLOTS, room) == |Members(h, room)|
  {
    UsersCounted(s.slots, SLOTS, room);
    forall fd: Fd ensures InRoom(Lookup(s.slots, fd), room) <==> MemberOf(h, fd, room) {
      assert Lookup(s.slots, fd) == Meaning(h, fd);
    }
    hide InRoom, MemberOf, Refines;
    assert Occupants(s.slots, SLOTS, room) == Members(h, room);
  }

  /** The list that is sent has one entry for each known room, in order, with the number of its members. */
  lemma RosterShows(lines: seq<string>, h: seq<Event>, i: nat)
    requires Possible(h) && Separate(h) && i < |After(lines, h).rooms|
    ensures var s, list := After(lines, h), List(After(lines, h));
            |list.counts| == |s.rooms| && list.counts[i] == (s.rooms[i], |Members(h, s.rooms[i])|)
  {
    TableIsHistory(lines, h);
    UsersAreMembers(After(lines, h), h, After(lines, h).rooms[i]);
  }

  function Total(counts: seq<(string, nat)>): nat {
    if counts == [] then 0 else Total(counts[..|counts| - 1]) + counts[|counts| - 1].1
  }

  lemma {:induction false} TotalIsKnown(s: Server, h: seq<Event>, rooms: seq<string>)
    requires Refines(s, h) && Distinct(rooms)
    ensures Total(Counts(s.slots, rooms, |rooms|)) == |Known(h, rooms)|
  {
    if rooms == [] {
      assert Known(h, rooms) == {};
    } else {
      var n := |rooms| - 1;
      var front, last := rooms[..n], rooms[n];
      TotalIsKnown(s, h, front);
      CountsFront(s.slots, rooms, n);
      UsersAreMembers(s, h, last);
      assert Known(h, rooms) == Known(h, front) + Members(h, last) by {
        assert forall r :: r in rooms <==> r in front || r == last;
      }
      assert Known(h, front) !! Members(h, last);
    }
  }

  lemma CountsFront(slots: seq<Option<Client>>, rooms: seq<string>, n: nat)
    requires n < |rooms|
    ensures Counts(slots, rooms, n + 1)[..n] == Counts(slots, rooms[..n], n)
  {
  }

  /** In every reachable state the counts of the room list add up to the number of bound
      connections whose current room is known. */
  lemma RosterTotal(lines: seq<string>, h: seq<Event>)
    requires Possible(h) && Separate(h) && Distinct(Load(lines))
    ensures var s := After(lines, h);
            Total(List(s).counts) == |Known(h, s.rooms)|
  {
    TableIsHistory(lines, h);
    RosterGrows(lines, h);
    TotalIsKnown(After(lines, h), h, After(lines, h).rooms);
  }
}
