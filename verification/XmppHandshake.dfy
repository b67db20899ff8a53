/**
 * The login handshake between the XMPP server and the browser page.  Both peers recognise a
 * message only by the words it contains, so a message is the set of the words either peer looks
 * for; `handshake` is a tag of the model that no decision depends on.
 */
module XmppHandshake {
  import opened Common
  import opened XmppSession

  datatype Browser = Disconnected | WaitSasl | WaitAuthResult | WaitBindOffer | WaitBindResult | Ready

  datatype Msg = Msg(words: set<Word>, handshake: bool)

  // The fixed texts of both programs, by the words they contain.
  const START_STREAM := Msg({StreamTag}, true)
  const AUTH := Msg({AuthTag}, true)
  const BIND := Msg({IqTag, BindTag, Bind}, true)
  const SESSION := Msg({IqTag, SessionTag}, false)
  const SASL_HEADER := Msg({XmlDecl, StreamTag, Mechanisms}, true)
  const SUCCESS := Msg({Success}, true)
  const BIND_HEADER := Msg({XmlDecl, StreamTag, BindTag, Bind, SessionTag}, true)
  const BIND_RESULT := Msg({IqTag, BindTag, Bind, JidWord}, true)

  datatype State = State(server: Phase, browser: Browser, up: seq<Msg>, down: seq<Msg>)

  const INITIAL := State(Connected, Disconnected, [], [])

  /** What the page's `onmessage` does: next state and messages sent. `room` is the text of the
      presence stanza it sends when it becomes ready. */
  function OnMessage(b: Browser, w: set<Word>, room: set<Word>): (r: (Browser, seq<Msg>)) {
    if b.WaitSasl? && Mechanisms in w then (WaitAuthResult, [AUTH])
    else if b.WaitAuthResult? && Success in w then (WaitBindOffer, [START_STREAM])
    else if b.WaitBindOffer? && Bind in w then (WaitBindResult, [BIND])
    else if b.WaitBindResult? && JidWord in w then (Ready, [SESSION, Msg(room, false)])
    else (b, [])
  }

  /** The answer to a session request repeats the id of the request, which may hold any of its words. */
  function SessionAnswer(w: set<Word>, id: set<Word>): Msg {
    Msg({IqTag} + id * w, false)
  }

  /** The server's answers to its own client.  Room lists, presences and chat carry names chosen by
      users and may contain any words; there are as many of them as `noise` says. */
  function Answers(p: Phase, w: set<Word>, id: set<Word>, noise: seq<set<Word>>): seq<Msg> {
    var others := seq(|noise|, i requires 0 <= i < |noise| => Msg(noise[i], false));
    match Dispatch(p, w)
    case OfferSasl => [SASL_HEADER]
    case AcceptAuth => [SUCCESS]
    case OfferBind => [BIND_HEADER]
    case BindClient => [BIND_RESULT] + others
    case AnswerSession => [SessionAnswer(w, id)]
    case Ignore => []
    case _ => others
  }

  datatype Event =
    | Open                                                    // the page's onopen
    | ServerReceives(id: set<Word>, noise: seq<set<Word>>)    // the server handles the next message
    | BrowserReceives(room: set<Word>)                        // the page handles the next message
    | FromOthers(words: set<Word>)                            // room list, presence or chat caused by others
    | UserSends(words: set<Word>)                             // the user joins, leaves or chats, at any time

  predicate Enabled(s: State, e: Event) {
    match e
    case Open => s.browser.Disconnected?
    case ServerReceives(_, _) => s.up != []
    case BrowserReceives(_) => s.down != []
    case FromOthers(_) => s.server.Bound?
    case UserSends(_) => !s.browser.Disconnected?
  }

  function Step(s: State, e: Event): State
    requires Enabled(s, e)
  {
    match e
    case Open => s.(browser := WaitSasl, up := s.up + [START_STREAM])
    case ServerReceives(id, noise) =>
      var w := s.up[0].words;
      s.(server := NextPhase(s.server, w), up := s.up[1..], down := s.down + Answers(s.server, w, id, noise))
    case BrowserReceives(room) =>
      var (b, sent) := OnMessage(s.browser, s.down[0].words, room);
      s.(browser := b, down := s.down[1..], up := s.up + sent)
    case FromOthers(words) => s.(down := s.down + [Msg(words, false)])
    case UserSends(words) => s.(up := s.up + [Msg(words, false)])
  }

  function Run(s: State, events: seq<Event>): Option<State>
    decreases |events|
  {
    if events == [] then Some(s)
    else if Enabled(s, events[0]) then Run(Step(s, events[0]), events[1..])
    else None
  }

  // ---------------------------------------------------------------------------------------------
  // Texts that may not be sent

  /** A text that disturbs the handshake when the server handles it in phase p: it is taken for the
      next handshake message, or for a session request whose answer is taken for the next answer. */
  predicate Harmful(p: Phase, w: set<Word>) {
    match p
    case Connected => true
    case StreamOpen => AuthTag in w || (SessionTag in w && Success in w)
    case Authenticated => StreamTag in w || (SessionTag in w && Bind in w)
    case Negotiating => BindTag in w || (SessionTag in w && JidWord in w)
    case Bound => false
  }

  /** The phase in which the server will handle what the page sends now: the one that the page's last
      handshake message leads to. */
  function HandledIn(b: Browser): Phase {
    match b
    case Disconnected => Connected
    case WaitSasl => StreamOpen
    case WaitAuthResult => Authenticated
    case WaitBindOffer => Negotiating
    case _ => Bound
  }

  /** The user's texts are harmless; of texts sent while the page waits for the bind result or is
      ready, nothing is asked. */
  predicate Allowed(s: State, e: Event) {
    e.UserSends? ==> !Harmful(HandledIn(s.browser), e.words)
  }

  predicate Careful(s: State, events: seq<Event>)
    decreases |events|
  {
    events == [] || (Enabled(s, events[0]) ==> Allowed(s, events[0]) && Careful(Step(s, events[0]), events[1..]))
  }

  // ---------------------------------------------------------------------------------------------
  // The invariant

  /** How far the handshake is, 0 to 9; 10 stands for a pair of states that do not go together. */
  function Stage(s: State): nat {
    match (s.browser, s.server)
    case (Disconnected, Connected) => 0
    case (WaitSasl, Connected) => 1
    case (WaitSasl, StreamOpen) => 2
    case (WaitAuthResult, StreamOpen) => 3
    case (WaitAuthResult, Authenticated) => 4
    case (WaitBindOffer, Authenticated) => 5
    case (WaitBindOffer, Negotiating) => 6
    case (WaitBindResult, Negotiating) => 7
    case (WaitBindResult, Bound) => 8
    case (Ready, Bound) => 9
    case _ => 10
  }

  /** The handshake message that is in flight at each stage. */
  function Expected(stage: nat): Msg
    requires 1 <= stage <= 8
  {
    match stage
    case 1 => START_STREAM
    case 2 => SASL_HEADER
    case 3 => AUTH
    case 4 => SUCCESS
    case 5 => START_STREAM
    case 6 => BIND_HEADER
    case 7 => BIND
    case _ => BIND_RESULT
  }

  predicate Upward(stage: nat) { stage in {1, 3, 5, 7} }

  predicate Downward(stage: nat) { stage in {2, 4, 6, 8} }

  predicate Quiet(q: seq<Msg>) {
    forall i | 0 <= i < |q| :: !q[i].handshake
  }

  /** Exactly one handshake message, `m`, with `depth` messages before it. */
  predicate OneAt(q: seq<Msg>, m: Msg, depth: nat) {
    && depth < |q| && q[depth] == m && m.handshake
    && forall i | 0 <= i < |q| && i != depth :: !q[i].handshake
  }

  /** The number of messages in front of the handshake message. */
  function Depth(q: seq<Msg>): (d: nat)
    ensures d <= |q|
    ensures forall i | 0 <= i < d :: !q[i].handshake
    ensures d < |q| ==> q[d].handshake
  {
    if q == [] || q[0].handshake then 0 else 1 + Depth(q[1..])
  }

  /** A message that the page passes over while it is in state b. */
  predicate Calm(b: Browser, w: set<Word>) {
    match b
    case WaitSasl => Mechanisms !in w
    case WaitAuthResult => Success !in w
    case WaitBindOffer => Bind !in w
    case WaitBindResult => JidWord !in w
    case Disconnected => false
    case Ready => true
  }

  /** The page's state once it has the server's answer of phase p. */
  function Answered(p: Phase): Browser {
    match p
    case Connected => WaitSasl
    case StreamOpen => WaitAuthResult
    case Authenticated => WaitBindOffer
    case Negotiating => WaitBindResult
    case Bound => Ready
  }

  /** The messages of q up to position d are harmless in phase p, those behind it in phase next. */
  predicate UpFine(q: seq<Msg>, d: nat, p: Phase, next: Phase) {
    && (forall i | 0 <= i < |q| && i < d :: !Harmful(p, q[i].words))
    && (forall i | 0 <= i < |q| && i > d :: !Harmful(next, q[i].words))
  }

  predicate DownFine(q: seq<Msg>, d: nat, b: Browser, next: Browser) {
    && (forall i | 0 <= i < |q| && i < d :: Calm(b, q[i].words))
    && (forall i | 0 <= i < |q| && i > d :: Calm(next, q[i].words))
  }

  predicate UpInv(s: State, stage: nat) {
    && (if Upward(stage) then OneAt(s.up, Expected(stage), Depth(s.up)) else Quiet(s.up) && Depth(s.up) == |s.up|)
    && UpFine(s.up, Depth(s.up), s.server, HandledIn(s.browser))
  }

  predicate DownInv(s: State, stage: nat) {
    && (if Downward(stage) then OneAt(s.down, Expected(stage), Depth(s.down))
        else Quiet(s.down) && Depth(s.down) == |s.down|)
    && DownFine(s.down, Depth(s.down), s.browser, Answered(s.server))
  }

  predicate Inv(s: State) {
    Stage(s) <= 9 && UpInv(s, Stage(s)) && DownInv(s, Stage(s))
  }

  lemma {:induction false} DepthIs(q: seq<Msg>, d: nat)
    requires d <= |q| && (forall i | 0 <= i < d :: !q[i].handshake) && (d < |q| ==> q[d].handshake)
    ensures Depth(q) == d
  {
    if d == 0 {
    } else {
      DepthIs(q[1..], d - 1);
    }
  }

  /** Quiet messages behind what is in a channel do not change the depth of its handshake message. */
  lemma Appended(q: seq<Msg>, d: nat, x: seq<Msg>)
    requires d == Depth(q) && Quiet(x)
    ensures d < |q| ==> Depth(q + x) == d
    ensures d == |q| ==> Depth(q + x) == |q + x|
  {
    DepthIs(q + x, if d < |q| then d else |q + x|);
  }

  lemma Pushed(q: seq<Msg>, m: Msg)
    requires Quiet(q) && m.handshake
    ensures OneAt(q + [m], m, |q|) && Depth(q + [m]) == |q|
  {
    DepthIs(q + [m], |q|);
  }

  lemma Removed(q: seq<Msg>, d: nat)
    requires d == Depth(q) && q != []
    ensures 0 < d ==> !q[0].handshake && Depth(q[1..]) == d - 1
  {
    if d > 0 { DepthIs(q[1..], d - 1); }
  }

  /** A harmless text does not move the server, and is answered by nothing the page acts on. */
  lemma HarmlessAnswers(p: Phase, w: set<Word>, id: set<Word>, noise: seq<set<Word>>)
    requires !Harmful(p, w)
    ensures NextPhase(p, w) == p && Quiet(Answers(p, w, id, noise))
    ensures forall i | 0 <= i < |Answers(p, w, id, noise)| :: Calm(Answered(p), Answers(p, w, id, noise)[i].words)
  {
  }

  /** The number of messages in front of the handshake message, in its channel. */
  function Ahead(s: State): nat {
    if Upward(Stage(s)) then Depth(s.up) else if Downward(Stage(s)) then Depth(s.down) else 0
  }

  /** From s to t the handshake has not gone back; if `strictly`, it is closer to its end. */
  predicate Progress(s: State, t: State, strictly: bool) {
    || Stage(t) > Stage(s)
    || (Stage(t) == Stage(s) && if strictly then Ahead(t) < Ahead(s) else Ahead(t) <= Ahead(s))
  }

  /** What the server does with the handshake message of each stage. */
  lemma Replies(s: State, id: set<Word>, noise: seq<set<Word>>) returns (others: seq<Msg>)
    requires Stage(s) <= 9 && Upward(Stage(s))
    ensures var w := Expected(Stage(s)).words;
            && NextPhase(s.server, w) == HandledIn(s.browser)
            && Stage(s.(server := HandledIn(s.browser))) == Stage(s) + 1
            && Answers(s.server, w, id, noise) == [Expected(Stage(s) + 1)] + others
    ensures Quiet(others) && (Stage(s) < 7 ==> others == [])
  {
    var sent := Answers(s.server, Expected(Stage(s)).words, id, noise);
    others := sent[1..];
    assert sent == [Expected(Stage(s) + 1)] + others;
  }

  /** The server receives the handshake message itself. */
  lemma ServerAnswers(s: State, id: set<Word>, noise: seq<set<Word>>)
    requires Inv(s) && Upward(Stage(s)) && Depth(s.up) == 0
    ensures Inv(Step(s, ServerReceives(id, noise)))
    ensures Stage(Step(s, ServerReceives(id, noise))) == Stage(s) + 1
    ensures s.down + [Expected(Stage(s) + 1)] <= Step(s, ServerReceives(id, noise)).down
  {
    var stage, t := Stage(s), Step(s, ServerReceives(id, noise));
    var others := Replies(s, id, noise);
    var m := Expected(stage + 1);
    assert t == State(HandledIn(s.browser), s.browser, s.up[1..], s.down + ([m] + others));
    assert Calm(Answered(t.server), {}) && (others != [] ==> Answered(t.server).Ready?);
    hide Answers, NextPhase, Dispatch, Step, Depth;
    assert t.down == s.down + [m] + others;
    AnswerArrives(s.down, m, others, s.browser, Answered(s.server), Answered(t.server));
    DepthIs(t.down, |s.down|);
    DepthIs(t.up, |t.up|);
    hide Calm, Harmful, DownFine;
  }

  /** A handshake message, and what follows it, arrives behind messages that the page passes over. */
  lemma AnswerArrives(q: seq<Msg>, m: Msg, x: seq<Msg>, b: Browser, before: Browser, next: Browser)
    requires Quiet(q) && DownFine(q, |q|, b, before) && m.handshake
    requires Quiet(x) && forall i | 0 <= i < |x| :: Calm(next, x[i].words)
    ensures OneAt(q + [m] + x, m, |q|) && DownFine(q + [m] + x, |q|, b, next)
  {
    hide Calm;
  }

  lemma UpShrinks(s: State)
    requires Inv(s) && s.up != [] && !(Upward(Stage(s)) && Depth(s.up) == 0)
    ensures !Harmful(s.server, s.up[0].words)
    ensures UpInv(s.(up := s.up[1..]), Stage(s)) && Depth(s.up[1..]) == Depth(s.up) - 1
  {
    Removed(s.up, Depth(s.up));
    hide Depth, Harmful;
  }

  lemma DownGrows(s: State, x: seq<Msg>)
    requires Inv(s) && Quiet(x) && forall i | 0 <= i < |x| :: Calm(Answered(s.server), x[i].words)
    requires Stage(s) >= 2 || x == []
    ensures DownInv(s.(down := s.down + x), Stage(s))
    ensures Downward(Stage(s)) ==> Depth(s.down + x) == Depth(s.down)
  {
    if x == [] {
      assert s.down + x == s.down;
    } else {
      Appended(s.down, Depth(s.down), x);
      assert Downward(Stage(s)) || s.browser == Answered(s.server);
      hide Depth, Calm, Harmful, UpFine;
      FineGrows(s.down, Depth(s.down), x, s.browser, Answered(s.server));
      hide DownFine, Quiet;
    }
  }

  lemma FineGrows(q: seq<Msg>, d: nat, x: seq<Msg>, b: Browser, next: Browser)
    requires d <= |q| && DownFine(q, d, b, next) && forall i | 0 <= i < |x| :: Calm(next, x[i].words)
    ensures d < |q| ==> DownFine(q + x, d, b, next)
    ensures d == |q| && b == next ==> DownFine(q + x, |q + x|, b, next)
  {
  }

  /** The server receives any other message of the page's. */
  lemma ServerServes(s: State, id: set<Word>, noise: seq<set<Word>>)
    requires Inv(s) && s.up != [] && !(Upward(Stage(s)) && Depth(s.up) == 0)
    ensures Inv(Step(s, ServerReceives(id, noise)))
    ensures Progress(s, Step(s, ServerReceives(id, noise)), Upward(Stage(s)))
  {
    var t, sent := Step(s, ServerReceives(id, noise)), Answers(s.server, s.up[0].words, id, noise);
    UpShrinks(s);
    HarmlessAnswers(s.server, s.up[0].words, id, noise);
    assert Stage(s) >= 2;
    DownGrows(s, sent);
    assert t == s.(up := s.up[1..], down := s.down + sent) && Stage(t) == Stage(s);
    hide Answers, NextPhase, Dispatch, Depth, Step, Stage, Upward, Downward, UpFine, DownFine;
  }

  /** The page receives the handshake message itself. */
  lemma BrowserActs(s: State, room: set<Word>)
    requires Inv(s) && Downward(Stage(s)) && Depth(s.down) == 0
    ensures Inv(Step(s, BrowserReceives(room)))
    ensures Stage(Step(s, BrowserReceives(room))) == Stage(s) + 1
    ensures Step(s, BrowserReceives(room)).up ==
            s.up + if Stage(s) < 8 then [Expected(Stage(s) + 1)]
                   else [Msg({IqTag, SessionTag}, false), Msg(room, false)]
  {
    var t, stage := Step(s, BrowserReceives(room)), Stage(s);
    var sent := if stage < 8 then [Expected(stage + 1)] else [SESSION, Msg(room, false)];
    assert OnMessage(s.browser, s.down[0].words, room) == (Answered(s.server), sent);
    assert t == State(s.server, Answered(s.server), s.up + sent, s.down[1..]) && Stage(t) == stage + 1;
    hide OnMessage, Step, Depth;
    DepthIs(t.down, |t.down|);
    if stage < 8 {
      Pushed(s.up, Expected(stage + 1));
    } else {
      DepthIs(t.up, |t.up|);
    }
  }

  /** The page receives any other message. */
  lemma BrowserPasses(s: State, room: set<Word>)
    requires Inv(s) && s.down != [] && !(Downward(Stage(s)) && Depth(s.down) == 0)
    ensures Step(s, BrowserReceives(room)) == s.(down := s.down[1..])
    ensures Inv(Step(s, BrowserReceives(room)))
    ensures Progress(s, Step(s, BrowserReceives(room)), Downward(Stage(s)))
  {
    assert Calm(s.browser, s.down[0].words);
    assert OnMessage(s.browser, s.down[0].words, room) == (s.browser, []);
    assert s.up + [] == s.up;
    hide OnMessage, Depth;
    Removed(s.down, Depth(s.down));
  }

  lemma OtherStep(s: State, e: Event)
    requires Inv(s) && Enabled(s, e) && Allowed(s, e) && (e.Open? || e.FromOthers? || e.UserSends?)
    ensures Inv(Step(s, e)) && Progress(s, Step(s, e), e.Open?)
  {
    hide Depth;
    match e
    case Open => Pushed(s.up, START_STREAM);
    case FromOthers(words) => Appended(s.down, Depth(s.down), [Msg(words, false)]);
    case UserSends(words) => Appended(s.up, Depth(s.up), [Msg(words, false)]);
  }

  /** The event that takes the handshake on: receiving from the channel its message is in. */
  function Next(s: State, room: set<Word>): Event {
    if Stage(s) == 0 then Open else if Upward(Stage(s)) then ServerReceives({}, []) else BrowserReceives(room)
  }

  lemma StepKeepsInv(s: State, e: Event)
    requires Inv(s) && Enabled(s, e) && Allowed(s, e)
    ensures Inv(Step(s, e)) && Progress(s, Step(s, e), Stage(s) < 9 && exists room :: e == Next(s, room))
  {
    hide Depth, Step, Inv;
    match e
    case ServerReceives(id, noise) =>
      if Upward(Stage(s)) && Depth(s.up) == 0 { ServerAnswers(s, id, noise); } else { ServerServes(s, id, noise); }
    case BrowserReceives(room) =>
      if Downward(Stage(s)) && Depth(s.down) == 0 { BrowserActs(s, room); } else { BrowserPasses(s, room); }
    case _ => OtherStep(s, e);
  }

  lemma {:induction false} RunKeepsInv(s: State, events: seq<Event>)
    requires Inv(s) && Careful(s, events)
    ensures Run(s, events).Some? ==> Inv(Run(s, events).value)
    decreases |events|
  {
    if events == [] {
    } else if Enabled(s, events[0]) {
      StepKeepsInv(s, events[0]);
      RunKeepsInv(Step(s, events[0]), events[1..]);
    }
  }

  // ---------------------------------------------------------------------------------------------
  // The properties of every run

  function CountHandshake(q: seq<Msg>): nat {
    if q == [] then 0 else (if q[0].handshake then 1 else 0) + CountHandshake(q[1..])
  }

  lemma {:induction false} CountQuiet(q: seq<Msg>)
    requires Quiet(q)
    ensures CountHandshake(q) == 0
  {
    if q == [] {
    } else {
      CountQuiet(q[1..]);
    }
  }

  lemma {:induction false} CountOne(q: seq<Msg>, m: Msg, d: nat)
    requires OneAt(q, m, d)
    ensures CountHandshake(q) == 1
  {
    if d == 0 {
      CountQuiet(q[1..]);
    } else {
      CountOne(q[1..], m, d - 1);
    }
  }

  /** A ready page has a bound server, the two states go together, and exactly one handshake message
      is in flight from the start of the handshake until the page is ready, none before and after. */
  predicate Fine(s: State) {
    && (s.browser.Ready? ==> s.server.Bound?)
    && Stage(s) <= 9
    && CountHandshake(s.up) + CountHandshake(s.down) == if s.browser.Disconnected? || s.browser.Ready? then 0 else 1
  }

  lemma InvIsFine(s: State)
    requires Inv(s)
    ensures Fine(s)
  {
    var stage := Stage(s);
    hide Depth;
    if Upward(stage) {
      CountOne(s.up, Expected(stage), Depth(s.up));
      CountQuiet(s.down);
    } else {
      CountQuiet(s.up);
      if Downward(stage) { CountOne(s.down, Expected(stage), Depth(s.down)); } else { CountQuiet(s.down); }
    }
  }

  lemma InitialInv()
    ensures Inv(INITIAL)
  {
  }

  /** Every joint state reachable with harmless texts, and with whatever else others and the network
      do, is fine. */
  lemma HandshakeSafety(events: seq<Event>)
    requires Careful(INITIAL, events)
    ensures Run(INITIAL, events).Some? ==> Fine(Run(INITIAL, events).value)
  {
    InitialInv();
    RunKeepsInv(INITIAL, events);
    if Run(INITIAL, events).Some? { InvIsFine(Run(INITIAL, events).value); }
  }

  /** The measure: in every reachable state before the end, the next receipt is enabled and brings
      the handshake strictly closer; no other event, of the peers or of other users, takes it back. */
  lemma HandshakeProgress(events: seq<Event>, e: Event, room: set<Word>)
    requires Careful(INITIAL, events) && Run(INITIAL, events).Some?
    ensures var s := Run(INITIAL, events).value;
            && (Stage(s) < 9 ==> Enabled(s, Next(s, room)) && Progress(s, Step(s, Next(s, room)), true))
            && (Enabled(s, e) && Allowed(s, e) ==> Progress(s, Step(s, e), false))
  {
    InitialInv();
    RunKeepsInv(INITIAL, events);
    var s := Run(INITIAL, events).value;
    NextProgress(s, room);
    if Enabled(s, e) && Allowed(s, e) { StepKeepsInv(s, e); }
  }

  lemma NextProgress(s: State, room: set<Word>)
    requires Inv(s)
    ensures var e := Next(s, room);
            Stage(s) < 9 ==> Enabled(s, e) && Inv(Step(s, e)) && Progress(s, Step(s, e), true)
  {
    if Stage(s) < 9 {
      assert Enabled(s, Next(s, room)) && Allowed(s, Next(s, room));
      StepKeepsInv(s, Next(s, room));
    }
  }

  // ---------------------------------------------------------------------------------------------
  // What the server has been sent in the end

  /** The messages that the server handles in a run, in order. */
  function Served(s: State, events: seq<Event>): seq<Msg>
    decreases |events|
  {
    if events == [] || !Enabled(s, events[0]) then []
    else (if events[0].ServerReceives? then [s.up[0]] else []) + Served(Step(s, events[0]), events[1..])
  }

  /** The server's phase once it has handled the messages q. */
  function PhaseAfter(p: Phase, q: seq<Msg>): Phase
    decreases |q|
  {
    if q == [] then p else PhaseAfter(NextPhase(p, q[0].words), q[1..])
  }

  /** The words of the room presence that the page has at hand in the step in which it becomes ready. */
  function ReadyRoom(s: State, events: seq<Event>): Option<set<Word>>
    decreases |events|
  {
    if events == [] || !Enabled(s, events[0]) then None
    else if events[0].BrowserReceives? && !s.browser.Ready? && Step(s, events[0]).browser.Ready?
    then Some(events[0].room)
    else ReadyRoom(Step(s, events[0]), events[1..])
  }

  /** In the step in which the page becomes ready, it sends the session request and then the presence
      for its room; the server is bound by then. */
  lemma ReadySends(events: seq<Event>, e: Event)
    requires Careful(INITIAL, events) && Run(INITIAL, events).Some?
    requires var s := Run(INITIAL, events).value;
             Enabled(s, e) && Allowed(s, e) && !s.browser.Ready? && Step(s, e).browser.Ready?
    ensures var s := Run(INITIAL, events).value;
            && e.BrowserReceives? && Step(s, e).server.Bound?
            && Step(s, e).up == s.up + [Msg({IqTag, SessionTag}, false), Msg(e.room, false)]
  {
    InitialInv();
    RunKeepsInv(INITIAL, events);
    ReadyStep(Run(INITIAL, events).value, e);
  }

  lemma ReadyStep(s: State, e: Event)
    requires Inv(s) && Enabled(s, e) && Allowed(s, e) && !s.browser.Ready? && Step(s, e).browser.Ready?
    ensures e.BrowserReceives? && Step(s, e).server.Bound?
    ensures Step(s, e).up == s.up + [Msg({IqTag, SessionTag}, false), Msg(e.room, false)]
  {
    StepKeepsInv(s, e);
    hide Inv, Depth;
  }

  /** The (n+1)-th message of q reaches a bound server and is the session request; the next one has
      the words r. */
  predicate Greeted(p: Phase, q: seq<Msg>, n: nat, r: set<Word>) {
    && n + 1 < |q| && PhaseAfter(p, q[..n]).Bound?
    && q[n] == Msg({IqTag, SessionTag}, false) && q[n + 1] == Msg(r, false)
  }

  lemma {:induction false} BoundStays(q: seq<Msg>)
    ensures PhaseAfter(Bound, q) == Bound
    decreases |q|
  {
    if q == [] {
    } else {
      BoundStays(q[1..]);
    }
  }

  /** A run by its first event. */
  lemma RunCons(s: State, events: seq<Event>)
    requires events != [] && Enabled(s, events[0])
    ensures var e, rest, t := events[0], events[1..], Step(s, events[0]);
            && Run(s, events) == Run(t, rest)
            && Served(s, events) == (if e.ServerReceives? then [s.up[0]] + Served(t, rest) else Served(t, rest))
            && ReadyRoom(s, events) == if e.BrowserReceives? && !s.browser.Ready? && t.browser.Ready? then Some(e.room)
                                       else ReadyRoom(t, rest)
  {
    hide Step;
    var q := Served(Step(s, events[0]), events[1..]);
    assert [] + q == q;
  }

  /** The server handles what is on its way up first, in order; what it has not handled is still there. */
  lemma {:induction false} ServedFirst(s: State, events: seq<Event>)
    requires Run(s, events).Some?
    ensures s.up <= Served(s, events) + Run(s, events).value.up
    decreases |events|
  {
    if events == [] {
    } else {
      var t := Step(s, events[0]);
      RunCons(s, events);
      UpMoves(s, events[0]);
      hide Step, Served, Run;
      ServedFirst(t, events[1..]);
      var q, left := Served(t, events[1..]), Run(s, events).value.up;
      if events[0].ServerReceives? { PrefixCons(s.up, q, left); } else { PrefixOf(s.up, t.up, q + left); }
    }
  }

  lemma PrefixOf(a: seq<Msg>, b: seq<Msg>, c: seq<Msg>)
    requires a <= b <= c
    ensures a <= c
  {
  }

  lemma PrefixCons(up: seq<Msg>, q: seq<Msg>, left: seq<Msg>)
    requires up != [] && up[1..] <= q + left
    ensures up <= [up[0]] + q + left
  {
    assert up == [up[0]] + up[1..];
    assert [up[0]] + q + left == [up[0]] + (q + left);
  }

  lemma UpMoves(s: State, e: Event)
    requires Enabled(s, e)
    ensures if e.ServerReceives? then Step(s, e).up == s.up[1..] else s.up <= Step(s, e).up
  {
  }

  lemma GreetedNow(up: seq<Msg>, q: seq<Msg>, r: set<Word>)
    requires up + [Msg({IqTag, SessionTag}, false), Msg(r, false)] <= q
    ensures Greeted(Bound, q, |up|, r)
  {
    var all := up + [Msg({IqTag, SessionTag}, false), Msg(r, false)];
    BoundStays(q[..|up|]);
    assert q[|up|] == all[|up|] && q[|up| + 1] == all[|up| + 1];
  }

  lemma GreetedLater(p: Phase, x: Msg, q: seq<Msg>, n: nat, r: set<Word>)
    requires Greeted(NextPhase(p, x.words), q, n, r)
    ensures Greeted(p, [x] + q, n + 1, r)
  {
    assert ([x] + q)[..n + 1][1..] == q[..n];
  }

  lemma PhaseMoves(s: State, e: Event)
    requires Enabled(s, e)
    ensures Step(s, e).server == if e.ServerReceives? then NextPhase(s.server, s.up[0].words) else s.server
  {
  }

  /** In a run in which the page becomes ready and everything it sent is handled, the bound server
      handles its session request and then its presence. */
  lemma {:induction false} GreetedInTheEnd(s: State, events: seq<Event>) returns (n: nat)
    requires Inv(s) && Careful(s, events) && !s.browser.Ready?
    requires Run(s, events).Some? && Run(s, events).value.browser.Ready? && Run(s, events).value.up == []
    ensures ReadyRoom(s, events).Some? && Greeted(s.server, Served(s, events), n, ReadyRoom(s, events).value)
    decreases |events|
  {
    var e, rest, t := events[0], events[1..], Step(s, events[0]);
    StepKeepsInv(s, e);
    PhaseMoves(s, e);
    RunCons(s, events);
    hide Greeted, Inv, Step, Served, Run, ReadyRoom;
    if t.browser.Ready? {
      ReadyStep(s, e);
      ServedFirst(t, rest);
      GreetedNow(s.up, Served(t, rest), e.room);
      n := |s.up|;
    } else {
      n := GreetedInTheEnd(t, rest);
      if e.ServerReceives? {
        GreetedLater(s.server, s.up[0], Served(t, rest), n, ReadyRoom(t, rest).value);
        n := n + 1;
      }
    }
  }

  predicate Receipts(events: seq<Event>, room: set<Word>) {
    forall e | e in events :: e.Open? || e.ServerReceives? || (e.BrowserReceives? && e.room == room)
  }

  lemma {:induction false} RunConcat(s: State, a: seq<Event>, b: seq<Event>)
    requires Run(s, a).Some?
    ensures Run(s, a + b) == Run(Run(s, a).value, b)
    ensures Careful(s, a) && Careful(Run(s, a).value, b) ==> Careful(s, a + b)
    ensures ReadyRoom(s, a + b) ==
            if ReadyRoom(s, a).Some? then ReadyRoom(s, a) else ReadyRoom(Run(s, a).value, b)
    decreases |a|
  {
    hide Step;
    if a == [] {
      assert a + b == b;
    } else {
      RunConcat(Step(s, a[0]), a[1..], b);
      assert (a + b)[1..] == a[1..] + b;
    }
  }

  lemma {:induction false} ReceiptsAreCareful(s: State, events: seq<Event>, room: set<Word>)
    requires Receipts(events, room)
    ensures Careful(s, events) && ReadyRoom(s, events) in {None, Some(room)}
    decreases |events|
  {
    hide Step;
    if events == [] {
    } else if Enabled(s, events[0]) {
      assert events[0] in events && forall e | e in events[1..] :: e in events;
      ReceiptsAreCareful(Step(s, events[0]), events[1..], room);
    }
  }

  /** From every reachable joint state the handshake can be run to its end, by receipts alone once
      the socket is open, and on until the server has handled all that the page has sent; by then it
      has, bound, handled the page's session request and next the presence for its room. */
  lemma HandshakeCompletes(events: seq<Event>, room: set<Word>) returns (rest: seq<Event>, n: nat)
    requires Careful(INITIAL, events) && Run(INITIAL, events).Some?
    ensures Receipts(rest, room)
    ensures var r := Run(Run(INITIAL, events).value, rest);
            r.Some? && r.value.browser.Ready? && r.value.server.Bound? && r.value.up == []
    ensures var r := ReadyRoom(INITIAL, events + rest);
            && r.Some? && Greeted(Connected, Served(INITIAL, events + rest), n, r.value)
            && (Run(INITIAL, events).value.browser.Ready? || r.value == room)
  {
    InitialInv();
    RunKeepsInv(INITIAL, events);
    var s := Run(INITIAL, events).value;
    rest := CompletesFrom(s, room);
    RunConcat(INITIAL, events, rest);
    ReceiptsAreCareful(s, rest, room);
    n := GreetedInTheEnd(INITIAL, events + rest);
    if !s.browser.Ready? && ReadyRoom(INITIAL, events).Some? { ReadyStays(INITIAL, events); }
  }

  /** Once the page has become ready it stays so. */
  lemma {:induction false} ReadyStays(s: State, events: seq<Event>)
    requires Run(s, events).Some? && (s.browser.Ready? || ReadyRoom(s, events).Some?)
    ensures Run(s, events).value.browser.Ready?
    decreases |events|
  {
    if events == [] {
    } else {
      ReadyStays(Step(s, events[0]), events[1..]);
    }
  }

  lemma {:induction false} CompletesFrom(s: State, room: set<Word>) returns (events: seq<Event>)
    requires Inv(s)
    ensures Receipts(events, room)
    ensures var r := Run(s, events);
            r.Some? && r.value.browser.Ready? && r.value.server.Bound? && r.value.up == []
    decreases 9 - Stage(s), if Stage(s) == 9 then |s.up| else Ahead(s)
  {
    if Stage(s) == 9 && s.up == [] {
      events := [];
    } else {
      var e := if Stage(s) == 9 then ServerReceives({}, []) else Next(s, room);
      if Stage(s) == 9 { StepKeepsInv(s, e); } else { NextProgress(s, room); }
      assert Stage(s) == 9 ==> Stage(Step(s, e)) == 9 && |Step(s, e).up| < |s.up|;
      var rest := CompletesFrom(Step(s, e), room);
      events := [e] + rest;
      assert events[1..] == rest;
    }
  }
}
