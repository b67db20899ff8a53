/** How the XMPP server chooses what to do with a message, from the words in it and the session's phase. */
module XmppSession {

  /** The substrings searched for by `handle_client_message` and by the page's `onmessage`. */
  datatype Word =
    | StreamTag | XmlDecl | AuthTag | BindTag | SessionTag | IqTag | Disco | DiscoInfo | DiscoItems
    | PresenceTag | MessageTag
    | Mechanisms | Success | Bind | JidWord

  datatype Phase = Connected | StreamOpen | Authenticated | Negotiating | Bound

  /** Which branch of `handle_client_message` a message takes. */
  datatype Action =
    | OfferSasl | AcceptAuth | OfferBind | BindClient | AnswerSession | Ignore
    | AnswerInfo | AnswerItems | HandlePresence | HandleMessage

  function Dispatch(p: Phase, w: set<Word>): Action {
    if p.Connected? && (StreamTag in w || XmlDecl in w) then OfferSasl
    else if p.StreamOpen? && AuthTag in w then AcceptAuth
    else if p.Authenticated? && StreamTag in w then OfferBind
    else if p.Negotiating? && BindTag in w then BindClient
    else if SessionTag in w then AnswerSession
    else if !p.Bound? then Ignore
    else if IqTag in w && Disco in w then
      if DiscoInfo in w then AnswerInfo else if DiscoItems in w then AnswerItems else Ignore
    else if PresenceTag in w then HandlePresence
    else if MessageTag in w then HandleMessage
    else Ignore
  }

  function NextPhase(p: Phase, w: set<Word>): Phase {
    match Dispatch(p, w)
    case OfferSasl => StreamOpen
    case AcceptAuth => Authenticated
    case OfferBind => Negotiating
    case BindClient => Bound
    case _ => p
  }
}
