/** The chat server's loops over the client array, proved against the table functions of Muc. */
module XmppServer {
  import opened Common
  import opened XmppSession
  import opened Muc

  class Session {
    const fd: Fd
    var jid: string
    var currentRoom: string
    var nickname: string
    var state: Phase

    constructor (fd: Fd, junk: string)
      ensures Data() == Client(fd, Connected, "", "", junk)
    {
      this.fd, jid, currentRoom, nickname, state := fd, "", "", junk, Connected;
    }

    function Data(): Client
      reads this
    {
      Client(fd, state, jid, currentRoom, nickname)
    }
  }

  class ChatServer {
    const clients: array<Session?>
    const knownRooms: array<string>
    var knownRoomCount: nat
    ghost var table: seq<Option<Client>>
    ghost var repr: set<Session>

    ghost predicate Valid()
      reads this, clients, knownRooms, repr
    {
      && clients.Length == SLOTS && knownRooms.Length == MAX_ROOMS && knownRoomCount <= MAX_ROOMS
      && Table(table)
      && forall i | 0 <= i < SLOTS ::
           if clients[i] == null then table[i] == None
           else clients[i] in repr && table[i] == Some(clients[i].Data())
    }

    ghost function State(): Server
      requires knownRoomCount <= knownRooms.Length
      reads this, knownRooms
    {
      Server(table, knownRooms[..knownRoomCount])
    }

    constructor ()
      ensures Valid() && fresh(this) && fresh(clients) && fresh(knownRooms) && fresh(repr)
      ensures State() == Server(seq(SLOTS, i => None), [])
    {
      clients := new Session?[SLOTS](_ => null);
      knownRooms := new string[MAX_ROOMS](_ => "");
      knownRoomCount := 0;
      table, repr := seq(SLOTS, i => None), {};
    }

    method AddRoomToMemory(name: string) returns (added: bool)
      requires Valid()
      modifies `knownRoomCount, knownRooms
      ensures Valid()
      ensures State() == old(State()).(rooms := AddRoom(old(State()).rooms, name))
      ensures added <==> State().rooms != old(State()).rooms
    {
      var i := 0;
      while i < knownRoomCount
        invariant i <= knownRoomCount && name !in knownRooms[..i]
      {
        if knownRooms[i] == name { return false; }
        i := i + 1;
      }
      if knownRoomCount < MAX_ROOMS {
        knownRooms[knownRoomCount] := name[..Min(|name|, NAME_MAX)];
        knownRoomCount := knownRoomCount + 1;
        return true;
      }
      return false;
    }

    /** `load_persistent_rooms` at the start: the lines that `fgets` gives, without their ends. */
    method LoadPersistentRooms(lines: seq<string>)
      requires Valid() && knownRoomCount == 0
      modifies `knownRoomCount, knownRooms
      ensures Valid() && State() == old(State()).(rooms := Load(lines))
    {
      assert lines[..0] == [];
      for i := 0 to |lines|
        invariant Valid() && State() == old(State()).(rooms := Load(lines[..i]))
      {
        assert lines[..i + 1][..i] == lines[..i];
        if |lines[i]| > 0 { var _ := AddRoomToMemory(lines[i]); }
      }
      assert lines[..|lines|] == lines;
    }

    method GetUsersInRoom(room: string) returns (count: nat)
      requires Valid()
      ensures count == Users(table, SLOTS, room)
    {
      count := 0;
      for i := 0 to SLOTS
        invariant count == Users(table, i, room)
      {
        var c := clients[i];
        if c != null && c.state.Bound? {
          if c.currentRoom == room { count := count + 1; }
        }
      }
    }

    method RoomListText() returns (list: Stanza)
      requires Valid()
      ensures list == List(State())
    {
      var items: seq<(string, nat)> := [];
      for i := 0 to knownRoomCount
        invariant items == Counts(table, knownRooms[..knownRoomCount], i)
      {
        var count := GetUsersInRoom(knownRooms[i]);
        items := items + [(knownRooms[i], count)];
      }
      list := RoomList(items);
    }

    /** `broadcast_room_list(-1)`. */
    method BroadcastRoomList() returns (out: seq<Delivery>)
      requires Valid()
      ensures out == CastAll(table, RoomLists(List(State())))
    {
      var list := RoomListText();
      out := [];
      for i := 0 to SLOTS
        invariant out == CastTo(table, i, RoomLists(list))
      {
        var c := clients[i];
        if c != null && c.state.Bound? { out := out + [Delivery(c.fd, list)]; }
      }
    }

    /** The first loop of a join. */
    method AnnounceJoin(room: string, nickname: string) returns (out: seq<Delivery>)
      requires Valid()
      ensures out == CastAll(table, Announce(room, nickname))
    {
      out := [];
      for j := 0 to SLOTS
        invariant out == CastTo(table, j, Announce(room, nickname))
      {
        var d := clients[j];
        if d != null && d.state.Bound? && d.currentRoom == room {
          out := out + [Delivery(d.fd, Presence(room, nickname, d.jid))];
        }
      }
    }

    /** The second. */
    method IntroduceMembers(room: string, c: Session) returns (out: seq<Delivery>)
      requires Valid()
      ensures out == CastAll(table, Introduce(room, c.Data()))
    {
      out := [];
      for j := 0 to SLOTS
        invariant out == CastTo(table, j, Introduce(room, c.Data()))
      {
        var d := clients[j];
        if d != null && d.state.Bound? && d.currentRoom == room {
          if d.fd == c.fd { continue; }
          out := out + [Delivery(c.fd, Presence(room, d.nickname, c.jid))];
        }
      }
    }

    method HandleMucJoin(i: nat, room: string, nickname: string) returns (out: seq<Delivery>)
      requires Valid() && i < SLOTS && clients[i] != null
      modifies this, knownRooms, clients[i]
      ensures Valid() && repr == old(repr)
      ensures (State(), out) == Join(old(State()), i, room, nickname)
    {
      var c := clients[i];
      c.currentRoom := room[..Min(|room|, NAME_MAX)];
      c.nickname := nickname[..Min(|nickname|, NAME_MAX)];
      table := table[i := Some(c.Data())];
      var _ := AddRoomToMemory(room);
      var announced := AnnounceJoin(room, c.nickname);
      var introduced := IntroduceMembers(room, c);
      out := announced + introduced + [Delivery(c.fd, SelfPresence(room, c.nickname, c.jid))];
    }

    method HandleChat(i: nat, m: Request) returns (out: seq<Delivery>)
      requires Valid() && i < SLOTS && clients[i] != null
      ensures out == Chatted(State(), table[i].value, m)
    {
      var sender, to := clients[i], To(m);
      out := [];
      if IsRoom(to) {
        var room := Target(to);
        for j := 0 to SLOTS
          invariant out == CastTo(table, j, Chat(room, sender.Data(), m.body))
        {
          var d := clients[j];
          if d != null && d.state.Bound? && d.currentRoom == room {
            if d.fd == sender.fd { continue; }
            out := out + [Delivery(d.fd, GroupChat(room, sender.nickname, d.jid, m.body))];
          }
        }
      } else if |to| > 0 {
        for j := 0 to SLOTS
          invariant out == [] && DirectFrom(table, 0, to, m.text) == DirectFrom(table, j, to, m.text)
        {
          var d := clients[j];
          if d != null && d.jid == to {
            out := [Delivery(d.fd, Direct(m.text))];
            break;
          }
        }
      }
    }

    method SetPhase(i: nat, p: Phase)
      requires Valid() && i < SLOTS && clients[i] != null
      modifies `table, clients[i]
      ensures Valid()
      ensures State() == old(State()).(slots := old(table)[i := Some(old(table[i].value).(phase := p))])
    {
      clients[i].state := p;
      table := table[i := Some(clients[i].Data())];
    }

    method HandleBind(i: nat) returns (out: seq<Delivery>)
      requires Valid() && i < SLOTS && clients[i] != null
      modifies `table, clients[i]
      ensures Valid()
      ensures var c := old(table[i].value).(phase := Bound, jid := Jid(clients[i].fd));
              && State() == old(State()).(slots := old(table)[i := Some(c)])
              && out == [Delivery(c.fd, BindResult(c.jid)), Delivery(c.fd, List(State()))]
    {
      var c := clients[i];
      c.jid := Jid(c.fd);
      out := [Delivery(c.fd, BindResult(c.jid))];
      c.state := Bound;
      table := table[i := Some(c.Data())];
      var list := RoomListText();
      out := out + [Delivery(c.fd, list)];
    }

    /** `handle_client_message`. */
    method HandleClientMessage(i: nat, m: Request) returns (out: seq<Delivery>)
      requires Valid() && i < SLOTS && clients[i] != null
      modifies this, knownRooms, clients[i]
      ensures Valid() && repr == old(repr)
      ensures (State(), out) == Handle(old(State()), i, m)
    {
      var c := clients[i];
      match Dispatch(c.state, m.words)
      case OfferSasl =>
        SetPhase(i, StreamOpen);
        out := [Delivery(c.fd, SaslHeader)];
      case AcceptAuth =>
        SetPhase(i, Authenticated);
        out := [Delivery(c.fd, AuthSuccess)];
      case OfferBind =>
        SetPhase(i, Negotiating);
        out := [Delivery(c.fd, BindHeader)];
      case BindClient =>
        out := HandleBind(i);
      case AnswerSession =>
        out := [Delivery(c.fd, SessionResult)];
      case AnswerInfo =>
        out := [Delivery(c.fd, InfoResult)];
      case AnswerItems =>
        out := [Delivery(c.fd, ItemsResult(knownRooms[..knownRoomCount]))];
      case HandlePresence =>
        var join := JoinOf(To(m));
        out := HandleMucJoin(i, join.0, join.1);
        var lists := BroadcastRoomList();
        out := out + lists;
      case HandleMessage =>
        out := HandleChat(i, m);
      case Ignore =>
        out := [];
    }

    /** A new connection; the slot's former occupant, if any, is forgotten. */
    method Accept(fd: Fd, junk: string)
      requires Valid()
      modifies this, clients
      ensures Valid() && fresh(repr - old(repr))
      ensures State() == Step(old(State()), Connect(fd, junk)).0
    {
      var c := new Session(fd, junk);
      clients[fd % SLOTS] := c;
      table := table[fd % SLOTS := Some(c.Data())];
      repr := repr + {c};
    }

    method HangUp(fd: Fd) returns (out: seq<Delivery>)
      requires Valid()
      modifies this, clients
      ensures Valid() && repr == old(repr)
      ensures (State(), out) == Step(old(State()), Close(fd))
    {
      out := [];
      if clients[fd % SLOTS] != null {
        clients[fd % SLOTS] := null;
        table := table[fd % SLOTS := None];
        out := BroadcastRoomList();
      }
    }

    /** A stanza has arrived from fd. */
    method OnReadable(fd: Fd, m: Request) returns (out: seq<Delivery>)
      requires Valid()
      modifies this, knownRooms, repr
      ensures Valid() && repr == old(repr)
      ensures (State(), out) == Step(old(State()), Receive(fd, m))
    {
      out := [];
      if clients[fd % SLOTS] != null { out := HandleClientMessage(fd % SLOTS, m); }
    }
  }

  /** The server as `main` sets it up before it listens. */
  method Start(lines: seq<string>) returns (server: ChatServer)
    ensures server.Valid() && fresh(server) && server.State() == After(lines, [])
  {
    server := new ChatServer();
    server.LoadPersistentRooms(lines);
  }
}
