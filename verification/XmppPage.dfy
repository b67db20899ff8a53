/** The handlers of the chat page's socket, which keep the login state in a global variable. */
module XmppPage {
  import opened XmppSession
  import opened XmppHandshake

  class ChatPage {
    var xmppState: Browser

    constructor ()
      ensures xmppState == Disconnected
    {
      xmppState := Disconnected;
    }

    /** Opening the socket is the protocol's opening step: wherever the server is, the page's part of
        the joint state is advanced and the stream header goes up. */
    method OnOpen() returns (sent: seq<Msg>)
      modifies this
      ensures forall s: State | s.browser == old(xmppState) && Enabled(s, Open) ::
                Step(s, Open) == s.(browser := xmppState, up := s.up + sent)
      ensures old(xmppState).Disconnected? ==>
                var s := INITIAL.(browser := xmppState, up := sent);
                Stage(s) == 1 && Inv(s)
    {
      sent := [START_STREAM];
      xmppState := WaitSasl;
    }

    /** `room` holds the words of the presence stanza for the current room and user. */
    method OnMessage(msg: set<Word>, room: set<Word>) returns (sent: seq<Msg>)
      modifies this
      ensures (xmppState, sent) == XmppHandshake.OnMessage(old(xmppState), msg, room)
      ensures forall s: State | s.browser == old(xmppState) && s.down != [] && s.down[0].words == msg ::
                Step(s, BrowserReceives(room)) == s.(browser := xmppState, up := s.up + sent, down := s.down[1..])
    {
      sent := [];
      if xmppState == WaitSasl && Mechanisms in msg {
        sent := [AUTH];
        xmppState := WaitAuthResult;
        return;
      }
      if xmppState == WaitAuthResult && Success in msg {
        sent := [START_STREAM];
        xmppState := WaitBindOffer;
        return;
      }
      if xmppState == WaitBindOffer && Bind in msg {
        sent := [BIND];
        xmppState := WaitBindResult;
        return;
      }
      if xmppState == WaitBindResult && JidWord in msg {
        xmppState := Ready;
        sent := [SESSION, Msg(room, false)];
        return;
      }
    }
  }
}
