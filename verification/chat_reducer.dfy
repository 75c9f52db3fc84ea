/** The chat slice's reducer: one pure step per action, together with the
    table of which state fields each case reducer assigns. */
module ChatReducer {
  import opened Optional
  import opened ChatTypes

  /** The four fields of the slice state. */
  datatype Field = ChatField | ParticipantsField | MessagesField | LoadingField

  /** The fields each case reducer assigns. The three rejected/pending cases
      that clear `messages` instead of their own slice are listed as written. */
  function Writes(e: Event): set<Field> {
    match e
    case AddMessageToCurrentChat(_) => {MessagesField}
    case InfoPending | InfoFulfilled(_) => {ChatField, LoadingField}
    case ParticipantsFulfilled(_) => {ParticipantsField, LoadingField}
    case InfoRejected(_) | MessagesPending | MessagesFulfilled(_) | MessagesRejected(_)
      | ParticipantsPending | ParticipantsRejected(_) => {MessagesField, LoadingField}
  }

  /** `s` and `t` hold the same value in field `f`. */
  predicate Agree(s: ChatState, t: ChatState, f: Field) {
    match f
    case ChatField => s.chat == t.chat
    case ParticipantsField => s.participants == t.participants
    case MessagesField => s.messages == t.messages
    case LoadingField => s.isLoading == t.isLoading
  }

  /** The new message list of `addMessageToCurrentChat`: the current list (an
      empty one when it is null) with `m` at the end. Nothing is deduplicated
      or reordered. */
  function AppendMessage(messages: Option<seq<Message>>, m: Message): (r: seq<Message>)
    ensures |r| == |messages.GetOr([])| + 1
    ensures r[..|r| - 1] == messages.GetOr([])
    ensures r[|r| - 1] == m
    ensures multiset(r)[m] == multiset(messages.GetOr([]))[m] + 1
  {
    messages.GetOr([]) + [m]
  }

  /** The reducer applied to one action. */
  function Step(s: ChatState, e: Event): (s': ChatState)
    ensures forall f :: f !in Writes(e) ==> Agree(s, s', f)
    ensures e.IsFetch() ==> s'.isLoading == e.IsPending()
    ensures e.InfoPending? ==> s'.chat.None?
    ensures e.InfoFulfilled? ==> s'.chat == Some(e.chat)
    ensures e.ParticipantsFulfilled? ==> s'.participants == Some(e.participants)
    ensures e.MessagesFulfilled? ==> s'.messages == Some(e.messages)
    ensures e.IsFetch() && MessagesField in Writes(e) && !e.MessagesFulfilled? ==> s'.messages.None?
    ensures e.AddMessageToCurrentChat? ==> s'.messages == Some(AppendMessage(s.messages, e.message))
  {
    match e
    case AddMessageToCurrentChat(m) => s.(messages := Some(AppendMessage(s.messages, m)))
    case InfoPending => s.(chat := None, isLoading := true)
    case InfoFulfilled(c) => s.(chat := Some(c), isLoading := false)
    case InfoRejected(_) => s.(messages := None, isLoading := false)
    case MessagesPending => s.(messages := None, isLoading := true)
    case MessagesFulfilled(ms) => s.(messages := Some(ms), isLoading := false)
    case MessagesRejected(_) => s.(messages := None, isLoading := false)
    case ParticipantsPending => s.(messages := None, isLoading := true)
    case ParticipantsFulfilled(us) => s.(participants := Some(us), isLoading := false)
    case ParticipantsRejected(_) => s.(messages := None, isLoading := false)
  }

  /** A state that every field in `Writes(e)` visibly changes on. */
  function Contrary(e: Event): ChatState {
    ChatState(
      if e.InfoFulfilled? then None else Some(Chat("")),
      None,
      if e.MessagesFulfilled? then None else Some([]),
      !e.IsPending())
  }

  /** The write table is exact: every field it lists for an action is really
      changed by that action on some state, so the frame in `Step`'s contract
      is as tight as it can be. */
  lemma WritesAreExact(e: Event, f: Field)
    requires f in Writes(e)
    ensures exists s :: !Agree(s, Step(s, e), f)
  {
    var s := Contrary(e);
    assert !Agree(s, Step(s, e), f);
  }

  /** Appending a message whose id is already present keeps both copies: the
      old entry stays where it was and the new one is last. */
  lemma AddKeepsDuplicateIds(s: ChatState, m: Message, k: nat)
    requires s.messages.Some? && k < |s.messages.value|
    requires s.messages.value[k].id == m.id
    ensures var r := Step(s, AddMessageToCurrentChat(m)).messages.value;
      k < |r| - 1 && r[k] == s.messages.value[k] && r[|r| - 1].id == r[k].id
  {
  }
}
