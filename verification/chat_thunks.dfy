/** The validation half of the three fetch thunks: how an HTTP response (or a
    thrown error) becomes the fulfilled or rejected action. The request itself
    is network I/O and appears only as its outcome. */
module ChatThunks {
  import opened Optional
  import opened ChatTypes

  /** The `data` object of a response body; `field` is the expected member
      (`chat`, `messages` or `participants`), `None` when missing or null. */
  datatype Payload<T> = Payload(field: Option<T>)

  /** What a request produced: an exception (network failure, error status, or
      a body without `data` to read from), or a body whose `data` may be absent. */
  datatype Response<T> = Threw | Received(data: Option<Payload<T>>)

  /** The settled thunk: the returned value, or the `rejectWithValue` message. */
  datatype ThunkResult<T> = Fulfilled(value: T) | Rejected(message: string)

  const InfoFailure: string := "Failed to get chat info"
  const MessagesFailure: string := "Failed to get chat messages"
  const ParticipantsFailure: string := "Failed to get chat participants"

  /** The fixed rejection message of each fetch. */
  function FailureMessage(kind: FetchKind): string {
    match kind
    case InfoFetch => InfoFailure
    case MessagesFetch => MessagesFailure
    case ParticipantsFetch => ParticipantsFailure
  }

  /** The response holds its expected field (`!data?.<field>` is false). */
  predicate HasField<T>(resp: Response<T>) {
    resp.Received? && resp.data.Some? && resp.data.value.field.Some?
  }

  /** The response holds `x` as its expected field. */
  predicate Carries<T(==)>(resp: Response<T>, x: T) {
    resp.Received? && resp.data.Some? && resp.data.value.field.Some? && resp.data.value.field.value == x
  }

  /** A thunk body: succeed with the expected field when the response has it,
      otherwise (or when the request threw) reject with the fetch's message.
      Objects and arrays are always truthy, so any present field passes the
      check, including an empty list. */
  function Validate<T>(resp: Response<T>, kind: FetchKind): (r: ThunkResult<T>)
    ensures r.Fulfilled? <==> HasField(resp)
    ensures r.Fulfilled? ==> Carries(resp, r.value)
    ensures r.Rejected? ==> r.message == FailureMessage(kind)
  {
    match resp
    case Threw => Rejected(FailureMessage(kind))
    case Received(data) =>
      if data.Some? && data.value.field.Some? then Fulfilled(data.value.field.value)
      else Rejected(FailureMessage(kind))
  }

  /** The action `getChatInfo` finally dispatches for a response. */
  function GetChatInfoSettled(resp: Response<Chat>): (e: Event)
    ensures e.IsSettlement() && e.Kind() == InfoFetch
    ensures forall c :: e == InfoFulfilled(c) <==> Carries(resp, c)
    ensures e.InfoRejected? <==> !HasField(resp)
    ensures e.InfoRejected? ==> e.rejectMessage == InfoFailure
  {
    match Validate(resp, InfoFetch)
    case Fulfilled(c) => InfoFulfilled(c)
    case Rejected(msg) => InfoRejected(msg)
  }

  /** The action `getChatMessages` finally dispatches for a response. */
  function GetChatMessagesSettled(resp: Response<seq<Message>>): (e: Event)
    ensures e.IsSettlement() && e.Kind() == MessagesFetch
    ensures forall ms :: e == MessagesFulfilled(ms) <==> Carries(resp, ms)
    ensures e.MessagesRejected? <==> !HasField(resp)
    ensures e.MessagesRejected? ==> e.rejectMessage == MessagesFailure
  {
    match Validate(resp, MessagesFetch)
    case Fulfilled(ms) => MessagesFulfilled(ms)
    case Rejected(msg) => MessagesRejected(msg)
  }

  /** The action `getChatParticipants` finally dispatches for a response. */
  function GetChatParticipantsSettled(resp: Response<seq<User>>): (e: Event)
    ensures e.IsSettlement() && e.Kind() == ParticipantsFetch
    ensures forall us :: e == ParticipantsFulfilled(us) <==> Carries(resp, us)
    ensures e.ParticipantsRejected? <==> !HasField(resp)
    ensures e.ParticipantsRejected? ==> e.rejectMessage == ParticipantsFailure
  {
    match Validate(resp, ParticipantsFetch)
    case Fulfilled(us) => ParticipantsFulfilled(us)
    case Rejected(msg) => ParticipantsRejected(msg)
  }
}
