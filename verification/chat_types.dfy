/** The records of the chat slice: the entities it stores, the slice state and
    the actions its reducer handles. */
module ChatTypes {
  import opened Optional

  /** Chat metadata. Its fields live in a types module that is not part of
      this model; only the identifier is kept. */
  datatype Chat = Chat(id: string)

  /** A participant of a chat, reduced to its identifier. */
  datatype User = User(id: string)

  /** A chat message, reduced to its identifier. */
  datatype Message = Message(id: string)

  /** The state of the chat slice: `null` is `None`. */
  datatype ChatState = ChatState(
    chat: Option<Chat>,
    participants: Option<seq<User>>,
    messages: Option<seq<Message>>,
    isLoading: bool)

  /** The slice's initial state: nothing loaded, no spinner. */
  const Initial: ChatState := ChatState(None, None, None, false)

  /** The three fetches that populate a chat. */
  datatype FetchKind = InfoFetch | MessagesFetch | ParticipantsFetch

  /** The actions the slice reacts to: the plain `addMessageToCurrentChat`
      action and the pending, fulfilled and rejected action of each fetch.
      A rejected action carries the message of the thunk's `rejectWithValue`
      payload, which no case reducer reads. */
  datatype Event =
    | AddMessageToCurrentChat(message: Message)
    | InfoPending
    | InfoFulfilled(chat: Chat)
    | InfoRejected(rejectMessage: string)
    | MessagesPending
    | MessagesFulfilled(messages: seq<Message>)
    | MessagesRejected(rejectMessage: string)
    | ParticipantsPending
    | ParticipantsFulfilled(participants: seq<User>)
    | ParticipantsRejected(rejectMessage: string)
  {
    /** True for the nine lifecycle actions of the three fetches. */
    predicate IsFetch() {
      !AddMessageToCurrentChat?
    }

    /** True for the three `pending` actions. */
    predicate IsPending() {
      InfoPending? || MessagesPending? || ParticipantsPending?
    }

    /** True for the six `fulfilled` and `rejected` actions. */
    predicate IsSettlement() {
      IsFetch() && !IsPending()
    }

    /** The fetch a lifecycle action belongs to. */
    function Kind(): FetchKind
      requires IsFetch()
    {
      match this
      case InfoPending | InfoFulfilled(_) | InfoRejected(_) => InfoFetch
      case MessagesPending | MessagesFulfilled(_) | MessagesRejected(_) => MessagesFetch
      case ParticipantsPending | ParticipantsFulfilled(_) | ParticipantsRejected(_) => ParticipantsFetch
    }
  }
}
