/**
 * The chat server's client table and rooms: what each event does to them and what is sent, and
 * the meaning of the table in terms of the history of each connection alone.
 *
 * Strings are C strings: no NUL.  A stanza is kept as the data that was put in it.
 */
module Muc {
  import opened Common
  import opened XmppSession

  const SLOTS := 64
  const MAX_ROOMS := 64
  const NAME_MAX := 63

  type Fd = x: int | 0 <= x < 0x8000_0000

  datatype Client = Client(fd: Fd, phase: Phase, jid: string, room: string, nick: string)

  datatype Server = Server(slots: seq<Option<Client>>, rooms: seq<string>)

  /** What `recv` delivered, as far as the server looks at it: the words it contains, the raw value
      of its `to` attribute (empty if there is none), its body, and the text itself. */
  datatype Request = Request(words: set<Word>, to: string, body: string, text: string)

  datatype Event =
    | Connect(fd: Fd, junk: string)    // `junk` is what `malloc` left in the nickname
    | Receive(fd: Fd, request: Request)
    | Close(fd: Fd)                    // by the peer, or by the server on data without tags

  datatype Stanza =
    | SaslHeader | AuthSuccess | BindHeader | BindResult(jid: string) | SessionResult
    | InfoResult | ItemsResult(rooms: seq<string>)
    | RoomList(counts: seq<(string, nat)>)
    | Presence(room: string, nick: string, to: string)
    | SelfPresence(room: string, nick: string, to: string)
    | GroupChat(room: string, nick: string, to: string, body: string)
    | Direct(text: string)

  datatype Delivery = Delivery(fd: Fd, stanza: Stanza)

  // ---------------------------------------------------------------------------------------------
  // Names

  function Digit(n: nat): char
    requires n < 10
  {
    "0123456789"[n]
  }

  /** "%d" of a non-negative number. */
  function Decimal(n: nat): (s: string)
    ensures s != []
  {
    if n < 10 then [Digit(n)] else Decimal(n / 10) + [Digit(n % 10)]
  }

  function Jid(fd: Fd): string {
    "user" + Decimal(fd) + "@radio/xmpp"
  }

  function IndexOf(s: string, c: char): (i: nat)
    ensures i <= |s| && c !in s[..i] && (i < |s| ==> s[i] == c)
  {
    if s == "" || s[0] == c then 0 else 1 + IndexOf(s[1..], c)
  }

  /** `strncpy` into 64 zeroed bytes, and `extract_attribute`. */
  function Truncate(s: string): string {
    s[..Min(|s|, NAME_MAX)]
  }

  function To(m: Request): string {
    Truncate(m.to)
  }

  /** The room and nickname named by the `to` attribute of a presence. */
  function JoinOf(to: string): (string, string) {
    var at, slash := IndexOf(to, '@'), IndexOf(to, '/');
    if at < |to| && slash < |to| then
      (to[..at], if at < slash then to[slash + 1..] else to[slash + 1..at])
    else
      (to[..slash], "WebGuest")
  }

  predicate Contains(s: string, p: string) {
    exists i: nat | i <= |s| :: OccursAt(s, p, i)
  }

  predicate IsRoom(to: string) {
    Contains(to, "@conference") || '@' !in to
  }

  function Target(to: string): string {
    if Contains(to, "@conference") then to[..IndexOf(to, '@')] else to
  }

  // ---------------------------------------------------------------------------------------------
  // Rooms

  function AddRoom(rooms: seq<string>, name: string): seq<string> {
    if name in rooms then rooms
    else if |rooms| < MAX_ROOMS then rooms + [Truncate(name)]
    else rooms
  }

  /** The rooms read from the configuration file at the start. */
  function Load(lines: seq<string>): seq<string> {
    if lines == [] then []
    else
      var before := Load(lines[..|lines| - 1]);
      if lines[|lines| - 1] == "" then before else AddRoom(before, lines[|lines| - 1])
  }

  predicate InRoom(slot: Option<Client>, room: string) {
    slot.Some? && slot.value.phase.Bound? && slot.value.room == room
  }

  /** The number of bound clients in `room` among the first k slots. */
  function Users(slots: seq<Option<Client>>, k: nat, room: string): nat
    requires k <= |slots|
  {
    if k == 0 then 0 else Users(slots, k - 1, room) + if InRoom(slots[k - 1], room) then 1 else 0
  }

  function Counts(slots: seq<Option<Client>>, rooms: seq<string>, k: nat): (c: seq<(string, nat)>)
    requires k <= |rooms|
    ensures |c| == k && forall i | 0 <= i < k :: c[i] == (rooms[i], Users(slots, |slots|, rooms[i]))
  {
    if k == 0 then [] else Counts(slots, rooms, k - 1) + [(rooms[k - 1], Users(slots, |slots|, rooms[k - 1]))]
  }

  function List(s: Server): Stanza {
    RoomList(Counts(s.slots, s.rooms, |s.rooms|))
  }

  // ---------------------------------------------------------------------------------------------
  // Sending to all slots

  /** The loops over the client table, by what they send for a client. */
  datatype Cast =
    | RoomLists(list: Stanza)
    | Announce(room: string, nick: string)
    | Introduce(room: string, joiner: Client)
    | Chat(room: string, sender: Client, body: string)

  function SendFor(cast: Cast, slot: Option<Client>): Option<Delivery> {
    match cast
    case RoomLists(list) =>
      if slot.Some? && slot.value.phase.Bound? then Some(Delivery(slot.value.fd, list)) else None
    case Announce(room, nick) =>
      if InRoom(slot, room) then Some(Delivery(slot.value.fd, Presence(room, nick, slot.value.jid))) else None
    case Introduce(room, joiner) =>
      if InRoom(slot, room) && slot.value.fd != joiner.fd
      then Some(Delivery(joiner.fd, Presence(room, slot.value.nick, joiner.jid))) else None
    case Chat(room, sender, body) =>
      if InRoom(slot, room) && slot.value.fd != sender.fd
      then Some(Delivery(slot.value.fd, GroupChat(room, sender.nick, slot.value.jid, body))) else None
  }

  /** What such a loop has sent after k slots. */
  function CastTo(slots: seq<Option<Client>>, k: nat, cast: Cast): seq<Delivery>
    requires k <= |slots|
  {
    if k == 0 then []
    else
      var sent := CastTo(slots, k - 1, cast);
      var d := SendFor(cast, slots[k - 1]);
      if d.Some? then sent + [d.value] else sent
  }

  function CastAll(slots: seq<Option<Client>>, cast: Cast): seq<Delivery> {
    CastTo(slots, |slots|, cast)
  }

  /** The first slot from k on whose client has this JID gets the text. */
  function DirectFrom(slots: seq<Option<Client>>, k: nat, jid: string, text: string): seq<Delivery>
    requires k <= |slots|
    decreases |slots| - k
  {
    if k == |slots| then []
    else if slots[k].Some? && slots[k].value.jid == jid then [Delivery(slots[k].value.fd, Direct(text))]
    else DirectFrom(slots, k + 1, jid, text)
  }

  // ---------------------------------------------------------------------------------------------
  // The server

  predicate Table(slots: seq<Option<Client>>) {
    |slots| == SLOTS && forall i | 0 <= i < SLOTS && slots[i].Some? :: slots[i].value.fd % SLOTS == i
  }

  function Join(s: Server, i: nat, room: string, nick: string): (Server, seq<Delivery>)
    requires i < |s.slots| && s.slots[i].Some?
  {
    var c := s.slots[i].value.(room := Truncate(room), nick := Truncate(nick));
    var t := Server(s.slots[i := Some(c)], AddRoom(s.rooms, room));
    (t, CastAll(t.slots, Announce(room, c.nick)) + CastAll(t.slots, Introduce(room, c))
        + [Delivery(c.fd, SelfPresence(room, c.nick, c.jid))])
  }

  function Chatted(s: Server, c: Client, m: Request): seq<Delivery> {
    var to := To(m);
    if IsRoom(to) then CastAll(s.slots, Chat(Target(to), c, m.body))
    else if to != "" then DirectFrom(s.slots, 0, to, m.text)
    else []
  }

  function Handle(s: Server, i: nat, m: Request): (Server, seq<Delivery>)
    requires i < |s.slots| && s.slots[i].Some?
  {
    var c := s.slots[i].value;
    match Dispatch(c.phase, m.words)
    case OfferSasl => (s.(slots := s.slots[i := Some(c.(phase := StreamOpen))]), [Delivery(c.fd, SaslHeader)])
    case AcceptAuth => (s.(slots := s.slots[i := Some(c.(phase := Authenticated))]), [Delivery(c.fd, AuthSuccess)])
    case OfferBind => (s.(slots := s.slots[i := Some(c.(phase := Negotiating))]), [Delivery(c.fd, BindHeader)])
    case BindClient =>
      var t := s.(slots := s.slots[i := Some(c.(phase := Bound, jid := Jid(c.fd)))]);
      (t, [Delivery(c.fd, BindResult(Jid(c.fd))), Delivery(c.fd, List(t))])
    case AnswerSession => (s, [Delivery(c.fd, SessionResult)])
    case AnswerInfo => (s, [Delivery(c.fd, InfoResult)])
    case AnswerItems => (s, [Delivery(c.fd, ItemsResult(s.rooms))])
    case HandlePresence =>
      var (room, nick) := JoinOf(To(m));
      var (t, sent) := Join(s, i, room, nick);
      (t, sent + CastAll(t.slots, RoomLists(List(t))))
    case HandleMessage => (s, Chatted(s, c, m))
    case Ignore => (s, [])
  }

  function Step(s: Server, e: Event): (Server, seq<Delivery>)
    requires |s.slots| == SLOTS
  {
    var i := e.fd % SLOTS;
    match e
    case Connect(fd, junk) => (s.(slots := s.slots[i := Some(Client(fd, Connected, "", "", junk))]), [])
    case Receive(_, m) => if s.slots[i].Some? then Handle(s, i, m) else (s, [])
    case Close(_) =>
      if s.slots[i].Some? then
        var t := s.(slots := s.slots[i := None]);
        (t, CastAll(t.slots, RoomLists(List(t))))
      else (s, [])
  }

  /** The server after the events h. */
  function After(lines: seq<string>, h: seq<Event>): (s: Server)
    ensures |s.slots| == SLOTS
  {
    if h == [] then Server(seq(SLOTS, i => None), Load(lines))
    else Step(After(lines, h[..|h| - 1]), h[|h| - 1]).0
  }
}
