/**
 * Which texts of the user disturb the login handshake.  The page sends what the user does at any
 * time once its socket is open, so the condition of `HandshakeSafety` on texts is not idle; it is
 * shown to be exact, state by state and text by text.
 */
module XmppTexts {
  import opened Common
  import opened XmppSession
  import opened XmppHandshake

  /** The only text in these events is w, and it is sent only while the page is in state b. */
  predicate OnlyText(s: State, events: seq<Event>, b: Browser, w: set<Word>)
    decreases |events|
  {
    events == []
    || (Enabled(s, events[0]) ==>
          && (events[0].UserSends? ==> s.browser == b && events[0].words == w)
          && OnlyText(Step(s, events[0]), events[1..], b, w))
  }

  lemma {:induction false} HarmlessIsCareful(s: State, events: seq<Event>, b: Browser, w: set<Word>)
    requires OnlyText(s, events, b, w) && !Harmful(HandledIn(b), w)
    ensures Careful(s, events)
    decreases |events|
  {
    if events == [] {
    } else if Enabled(s, events[0]) {
      HarmlessIsCareful(Step(s, events[0]), events[1..], b, w);
    }
  }

  /** The events lead from s to t with only that text. */
  predicate Leads(s: State, events: seq<Event>, t: State, b: Browser, w: set<Word>) {
    Run(s, events) == Some(t) && OnlyText(s, events, b, w)
  }

  lemma LeadsOne(s: State, e: Event, rest: seq<Event>, t: State, b: Browser, w: set<Word>)
    requires Enabled(s, e) && (e.UserSends? ==> s.browser == b && e.words == w) && Leads(Step(s, e), rest, t, b, w)
    ensures Leads(s, [e] + rest, t, b, w)
  {
    assert ([e] + rest)[1..] == rest;
  }

  const SERVE := ServerReceives({}, [])
  const READ := BrowserReceives({})

  // The undisturbed joint states in which the page waits with its own message on the way up.
  const ASKED := State(Connected, WaitSasl, [START_STREAM], [])
  const AUTHENTICATING := State(StreamOpen, WaitAuthResult, [AUTH], [])
  const RESTARTING := State(Authenticated, WaitBindOffer, [START_STREAM], [])

  function Waiting(b: Browser): State {
    match b
    case WaitSasl => ASKED
    case WaitAuthResult => AUTHENTICATING
    case _ => RESTARTING
  }

  /** From the start to the state in which the page waits in b, and on from there. */
  lemma ToWaiting(b: Browser, rest: seq<Event>, t: State, w: set<Word>) returns (events: seq<Event>)
    requires b in {WaitSasl, WaitAuthResult, WaitBindOffer}
    requires Leads(Waiting(b), rest, t, b, w)
    ensures Leads(INITIAL, events, t, b, w)
  {
    hide Leads;
    events := rest;
    if b.WaitBindOffer? {
      var s := Step(AUTHENTICATING, SERVE);
      assert Step(s, READ) == RESTARTING;
      LeadsOne(s, READ, events, t, b, w);
      LeadsOne(AUTHENTICATING, SERVE, [READ] + events, t, b, w);
      events := [SERVE] + ([READ] + events);
    }
    if !b.WaitSasl? {
      var s := Step(ASKED, SERVE);
      assert Step(s, READ) == AUTHENTICATING;
      LeadsOne(s, READ, events, t, b, w);
      LeadsOne(ASKED, SERVE, [READ] + events, t, b, w);
      events := [SERVE] + ([READ] + events);
    }
    assert Step(INITIAL, Open) == ASKED;
    LeadsOne(INITIAL, Open, events, t, b, w);
    events := [Open] + events;
  }

  /** The text is sent behind the page's own message, and both are handled. */
  function AfterText(b: Browser, w: set<Word>): State
    requires b in {WaitSasl, WaitAuthResult, WaitBindOffer}
  {
    Step(Step(Step(Waiting(b), UserSends(w)), SERVE), ServerReceives(w, []))
  }

  lemma SendText(b: Browser, w: set<Word>, rest: seq<Event>, t: State) returns (events: seq<Event>)
    requires b in {WaitSasl, WaitAuthResult, WaitBindOffer} && Leads(AfterText(b, w), rest, t, b, w)
    ensures Leads(INITIAL, events, t, b, w)
  {
    hide Leads;
    var s := Waiting(b);
    var s1 := Step(s, UserSends(w));
    var s2 := Step(s1, SERVE);
    LeadsOne(s2, ServerReceives(w, []), rest, t, b, w);
    LeadsOne(s1, SERVE, [ServerReceives(w, [])] + rest, t, b, w);
    LeadsOne(s, UserSends(w), [SERVE] + ([ServerReceives(w, [])] + rest), t, b, w);
    events := ToWaiting(b, [UserSends(w)] + ([SERVE] + ([ServerReceives(w, [])] + rest)), t, w);
  }

  /** The word that makes the server take the text for the page's next message. */
  function Taken(b: Browser): Word {
    match b
    case WaitSasl => AuthTag
    case WaitAuthResult => StreamTag
    case _ => BindTag
  }

  /** Every harmful text does harm: sent once, in a run in which nothing else is out of order, it
      leads to a joint state that is not fine.  Echoed in a session answer while the page waits for
      the bind offer, the word "jid" makes the page ready before the server is bound. */
  lemma HarmfulDisturbs(b: Browser, w: set<Word>) returns (events: seq<Event>, t: State)
    requires !b.Disconnected? && Harmful(HandledIn(b), w)
    ensures Leads(INITIAL, events, t, b, w) && !Fine(t)
    ensures b.WaitBindOffer? && Taken(b) !in w ==> t.browser.Ready? && t.server.Negotiating?
  {
    var s := AfterText(b, w);
    if Taken(b) in w {
      assert s.browser == b && Stage(s) == 10;
      events := SendText(b, w, [], s);
      t := s;
    } else {
      var s1 := Step(s, READ);
      t := Step(s1, READ);
      assert Stage(t) == 10;
      LeadsOne(s1, READ, [], t, b, w);
      LeadsOne(s, READ, [READ] + [], t, b, w);
      events := SendText(b, w, [READ] + ([READ] + []), t);
    }
  }

  /** The condition is exact: for every state of the page and every text, the runs in which that text,
      sent in that state, is the only one are all fine if and only if the text is harmless there. */
  lemma TextsExactly(b: Browser, w: set<Word>)
    requires !b.Disconnected?
    ensures (forall events :: OnlyText(INITIAL, events, b, w) && Run(INITIAL, events).Some? ==>
               Fine(Run(INITIAL, events).value))
            <==> !Harmful(HandledIn(b), w)
  {
    if Harmful(HandledIn(b), w) {
      var events, t := HarmfulDisturbs(b, w);
      assert OnlyText(INITIAL, events, b, w) && !Fine(Run(INITIAL, events).value);
    } else {
      forall events | OnlyText(INITIAL, events, b, w) && Run(INITIAL, events).Some?
        ensures Fine(Run(INITIAL, events).value)
      {
        HarmlessIsCareful(INITIAL, events, b, w);
        HandshakeSafety(events);
      }
    }
  }
}
