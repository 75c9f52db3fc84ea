# Chat slice of the chat client, modelled in Dafny

This project models the Redux slice that holds the open conversation of the chat
client (`client/src/store/chat.ts`). The slice state `ChatState` has four
fields: `chat` (metadata), `participants` (the roster), `messages` (the
history) and `isLoading` (the spinner flag). It changes on ten actions:

- `addMessageToCurrentChat`, which appends a live message;
- the pending, fulfilled and rejected actions of the three fetch thunks
  `getChatInfo`, `getChatMessages` and `getChatParticipants`.

The model is functional. `ChatState` and `Event` are immutable datatypes,
`ChatReducer.Step` is the reducer, and `ChatTrace.Run` folds it over a
sequence of actions. The three fetches settle in any order and live messages
arrive at any time, so every interleaving is some sequence of actions.
`ChatTrace` proves what the state is after ANY sequence: each field holds the
value written by the last action that assigns it. `messages` also keeps the
live messages appended after that action.

Files, one module each:

- `optional.dfy`: `Option`, which stands for `null`/`undefined`.
- `chat_types.dfy`: the entities, `ChatState`, the initial state, and the actions.
- `chat_thunks.dfy`: how a response, or a thrown error, becomes the fulfilled
  or rejected action. This includes the fixed rejection messages.
- `chat_reducer.dfy`: `Step` and the table of fields each case reducer writes.
- `chat_trace.dfy`: the fold and the last-writer theorems.
- `chat_session.dfy`: the page's opening sequence (three pending actions),
  settlements in any order, and concrete sequences.

The model follows the code, including its quirks:

- `getChatInfo.rejected`, `getChatParticipants.pending` and
  `getChatParticipants.rejected` clear `messages`, not their own field.
- `participants` is never reset. When another chat opens, the old roster stays
  until a roster fetch is fulfilled.
- `isLoading` follows the most recent fetch action alone. The first settlement
  hides the spinner while the other fetches are still in flight.
- `addMessageToCurrentChat` appends blindly. It does not deduplicate, sort, or
  check which chat the message belongs to.
- No action is checked for staleness.

No action carries a chat identifier or an epoch. Messages are neither
deduplicated nor sorted. No error marker is stored; the rejection message
reaches the action and is dropped by the reducer. A failed info or roster
fetch clears a history that had already loaded (`RosterFailureWipesHistory`,
`OpenThenSettleMessages`).

## Model

| member | source | states |
|---|---|---|
| ChatThunks.Validate | client/src/store/chat.ts:29-38 | A thunk succeeds exactly when the response's `data` holds the expected field, and then returns that field unchanged. A thrown error or a missing field rejects, with the fixed message of that fetch. |
| ChatThunks.GetChatInfoSettled | client/src/store/chat.ts:19-39 | `getChatInfo` ends in `fulfilled(c)` exactly when the response carries chat `c`. Otherwise it ends in `rejected` with "Failed to get chat info". |
| ChatThunks.GetChatMessagesSettled | client/src/store/chat.ts:41-61 | `getChatMessages` ends in `fulfilled(ms)` exactly when the response carries list `ms`. Otherwise it ends in `rejected` with "Failed to get chat messages". |
| ChatThunks.GetChatParticipantsSettled | client/src/store/chat.ts:64-84 | `getChatParticipants` ends in `fulfilled(us)` exactly when the response carries roster `us`. Otherwise it ends in `rejected` with "Failed to get chat participants". |
| ChatReducer.AppendMessage | client/src/store/chat.ts:90-92 | Appending to the list (`[]` if it was null) grows it by exactly one. The old list is a prefix and the new message is last. The message's multiplicity rises by one, so nothing is deduplicated. |
| ChatReducer.Step | client/src/store/chat.ts:86-134 | Each action leaves every field outside its write table unchanged. After a fetch action, `isLoading` is true iff it was a pending action. Info pending sets chat null and info fulfilled installs its chat. The roster and history fulfilments install their payloads verbatim. The five other fetch actions that write `messages` (info rejected, messages pending and rejected, participants pending and rejected) set it to null. |
| ChatReducer.WritesAreExact | client/src/store/chat.ts:95-132 | The write table is tight: each field listed for an action really changes on some state. |
| ChatReducer.AddKeepsDuplicateIds | client/src/store/chat.ts:90-92 | Appending a message whose id is already present keeps the old entry in place and adds a second entry with that id at the end. |
| ChatTrace.Run | client/src/store/chat.ts:121-132 | After any sequence of actions, a non-null `participants` is still non-null. A sequence with no fetch action leaves `isLoading` unchanged. |
| ChatTrace.RunConcat | client/src/store/chat.ts:86-134 | Dispatching `a + b` gives the same state as dispatching `a` and then `b`. |
| ChatTrace.RunFrame | client/src/store/chat.ts:95-132 | A field that no action in the sequence writes keeps its value across the whole sequence. |
| ChatTrace.ChatIsLastAssignment | client/src/store/chat.ts:95-106 | After any sequence, `chat` is what the last info pending (null) or info fulfilled (its payload) wrote. With neither in the sequence, `chat` keeps its starting value. Info rejected never changes it. |
| ChatTrace.ParticipantsIsLastAssignment | client/src/store/chat.ts:121-132 | After any sequence, `participants` is the payload of the last roster fulfilment, or its starting value if there was none. No action resets it. |
| ChatTrace.LoadingIsLastAssignment | client/src/store/chat.ts:95-132 | After any sequence, `isLoading` is true iff the last fetch action was a pending one. It does not depend on the other fetches still being outstanding. |
| ChatTrace.MessagesOnlyAppended | client/src/store/chat.ts:90-92 | With no fetch action assigning `messages`, the list is the starting list extended by the appended messages in arrival order. It stays unchanged if none were appended. |
| ChatTrace.MessagesIsLastAssignment | client/src/store/chat.ts:90-132 | After any sequence, `messages` is what the last fetch action assigning it wrote (the history payload, or null), extended by every message appended later. |
| ChatTrace.MessagesWithoutLiveAdds | client/src/store/chat.ts:103-132 | With no live message appended, `messages` is what the last fetch action assigning it wrote (the history payload, or null). With no such action it keeps its starting value. |
| ChatSession.ParticipantsNullUntilFulfilled | client/src/store/chat.ts:12-17 | From the initial state (all null, not loading), `participants` is null iff no roster fetch has been fulfilled. |
| ChatSession.LoadingFromInitial | client/src/store/chat.ts:12-17 | From the initial state, the spinner shows iff some pending action has no fetch action after it. |
| ChatSession.OpenChatResets | client/src/store/chat.ts:95-124 | The three pending actions the page dispatches clear `chat` and `messages` and set `isLoading`. They keep the previous roster. |
| ChatSession.OpenThenSettleLoading | client/src/store/chat.ts:95-132 | After opening, `isLoading` is false as soon as any one settlement has arrived, in any order. |
| ChatSession.OpenThenSettleChat | client/src/store/chat.ts:95-106 | After opening and any settlements, `chat` is set iff some info fetch was fulfilled. It then holds the last such payload. |
| ChatSession.OpenThenSettleParticipants | client/src/store/chat.ts:121-132 | After opening and any settlements, `participants` is the last fulfilled roster. Without one, it is the roster shown before the chat was opened. |
| ChatSession.OpenThenSettleMessages | client/src/store/chat.ts:103-132 | After opening and any settlements, `messages` is non-null iff a history fetch was fulfilled and no rejection of any of the three fetches came after it. |
| ChatSession.RosterFailureWipesHistory | client/src/store/chat.ts:129-132 | Suppose info and history load and the roster fetch then fails. The final state has the chat, a null history, the previous roster, and no spinner. |
| ChatSession.InfoResponseEffect | client/src/store/chat.ts:99-106 | The action `getChatInfo` settles with installs the chat when the response has one. Otherwise it clears `messages` and keeps the old chat. Either way the spinner goes off. |
| ChatSession.MessagesResponseEffect | client/src/store/chat.ts:112-119 | The action `getChatMessages` settles with installs the response's list verbatim, or null when the response lacks it. It touches nothing else but the spinner. |
| ChatSession.ParticipantsResponseEffect | client/src/store/chat.ts:125-132 | The action `getChatParticipants` settles with installs the roster when the response has one. Otherwise it keeps the old roster and clears `messages`. |

## Left out

- The HTTP requests, the `API_HOST` URL building and the bearer header (chat.ts lines 25-27, 47-49, 70-72) are network I/O. A response is modelled as its outcome: an exception, or a body whose `data` may lack the expected field.
- JavaScript truthiness is reduced to presence. The declared types make a present field an object or array, which is always truthy (even an empty array); a present but falsy field (`false`, `0`, `""`), which the source rejects, is not represented.
- The Redux Toolkit machinery (`createAsyncThunk`, `createSlice`, Immer drafts) is left out. The model is the resulting pure reducer and the actions it receives.
- `Chat`, `User` and `Message` come from a types module that is not part of this model. They are modelled as records holding only an id.
- `resetChatUnreadMessagesCounter` belongs to another slice that is not part of this model.
- Real concurrency between the three requests is not modelled. Only the interleavings of their actions are, as arbitrary action sequences.
- The chat page's rendering, scrolling, token lookup and date formatting are presentation. Only the order of its three dispatches is used, as `ChatSession.OpenChat`.
