/** What the slice shows while a chat is opened: the page dispatches the three
    fetches' pending actions in a row, then the six possible settlements and
    any live messages arrive in an arbitrary order. There is no staleness
    check, so a response meant for a chat the user has left is installed like
    any other. */
module ChatSession {
  import opened Optional
  import opened ChatTypes
  import opened ChatThunks
  import opened ChatReducer
  import opened ChatTrace

  /** The pending actions the chat page dispatches when it opens a chat. */
  const OpenChat: seq<Event> := [InfoPending, MessagesPending, ParticipantsPending]

  /** A settlement that sets `messages` to null. */
  predicate ClearsMessages(e: Event) {
    e.InfoRejected? || e.MessagesRejected? || e.ParticipantsRejected?
  }

  /** From the initial state, `participants` stays null exactly until the
      first fulfilled roster fetch, and is never null again afterwards. */
  lemma {:induction false} ParticipantsNullUntilFulfilled(es: seq<Event>)
    ensures Run(Initial, es).participants.None?
            <==> forall i :: 0 <= i < |es| ==> !es[i].ParticipantsFulfilled?
  {
    ParticipantsIsLastAssignment(Initial, es);
    NoRosterAssignment(es);
  }

  /** No action assigns the roster exactly when no roster fetch is fulfilled. */
  lemma {:induction false} NoRosterAssignment(es: seq<Event>)
    ensures LastAssignment(es, ParticipantsField) < 0
            <==> forall i :: 0 <= i < |es| ==> !es[i].ParticipantsFulfilled?
  {
    var k := LastAssignment(es, ParticipantsField);
    if k < 0 {
      forall i | 0 <= i < |es|
        ensures !es[i].ParticipantsFulfilled?
      {
        AssignsParticipants(es[i]);
      }
    } else {
      AssignsParticipants(es[k]);
    }
  }

  /** From the initial state, the spinner shows exactly when some pending
      action has not been followed by any fetch action, so the first fetch to
      settle hides it even while the other two are still in flight. */
  lemma {:induction false} LoadingFromInitial(es: seq<Event>)
    ensures Run(Initial, es).isLoading
            <==> exists i :: 0 <= i < |es| && es[i].IsPending()
                             && forall j :: i < j < |es| ==> !es[j].IsFetch()
  {
    LoadingIsLastAssignment(Initial, es);
    LastFetchIsPending(es);
  }

  /** The last fetch action of `es` is a pending one exactly when some pending
      action has no fetch action after it. */
  lemma {:induction false} LastFetchIsPending(es: seq<Event>)
    ensures var k := LastAssignment(es, LoadingField);
      (k >= 0 && es[k].IsPending())
      <==> exists i :: 0 <= i < |es| && es[i].IsPending()
                       && forall j :: i < j < |es| ==> !es[j].IsFetch()
  {
    var k := LastAssignment(es, LoadingField);
    if k >= 0 && es[k].IsPending() {
      forall j | k < j < |es|
        ensures !es[j].IsFetch()
      {
        AssignsLoading(es[j]);
      }
    } else {
      forall i | 0 <= i < |es| && es[i].IsPending()
        ensures exists j :: i < j < |es| && es[j].IsFetch()
      {
        AssignsLoading(es[i]);
        AssignsLoading(es[k]);
        assert i < k && es[k].IsFetch();
      }
    }
  }

  /** Opening a chat clears `chat` and `messages` and shows the spinner, but
      keeps the previous chat's roster. */
  lemma OpenChatResets(s: ChatState)
    ensures Run(s, OpenChat) == ChatState(None, s.participants, None, true)
  {
    RunSnoc(s, [], InfoPending);
    assert [] + [InfoPending] == [InfoPending];
    RunSnoc(s, [InfoPending], MessagesPending);
    assert [InfoPending] + [MessagesPending] == [InfoPending, MessagesPending];
    RunSnoc(s, [InfoPending, MessagesPending], ParticipantsPending);
    assert [InfoPending, MessagesPending] + [ParticipantsPending] == OpenChat;
  }

  /** After opening, the spinner is off as soon as any one settlement arrived. */
  lemma {:induction false} OpenThenSettleLoading(s: ChatState, t: seq<Event>)
    requires forall i :: 0 <= i < |t| ==> t[i].IsSettlement()
    ensures Run(s, OpenChat + t).isLoading <==> |t| == 0
  {
    OpenChatResets(s);
    RunConcat(s, OpenChat, t);
    if |t| > 0 {
      LoadingIsLastAssignment(Run(s, OpenChat), t);
      assert Assigns(t[|t| - 1], LoadingField);
    } else {
      assert OpenChat + t == OpenChat;
    }
  }

  /** After opening, `chat` is set exactly when some info fetch was fulfilled,
      and then holds the payload of the last one. */
  lemma OpenThenSettleChat(s: ChatState, t: seq<Event>)
    requires forall i :: 0 <= i < |t| ==> t[i].IsSettlement()
    ensures Run(s, OpenChat + t).chat.Some?
            <==> exists i :: 0 <= i < |t| && t[i].InfoFulfilled?
    ensures forall i :: 0 <= i < |t| && t[i].InfoFulfilled?
                        && (forall j :: i < j < |t| ==> !t[j].InfoFulfilled?)
                        ==> Run(s, OpenChat + t).chat == Some(t[i].chat)
  {
    OpenChatResets(s);
    RunConcat(s, OpenChat, t);
    var s0 := Run(s, OpenChat);
    ChatIsLastAssignment(s0, t);
    var k := LastAssignment(t, ChatField);
    if k < 0 {
      forall i | 0 <= i < |t|
        ensures !t[i].InfoFulfilled?
      {
        assert !Assigns(t[i], ChatField);
      }
    } else {
      assert t[k].InfoFulfilled?;
      forall i | 0 <= i < |t| && t[i].InfoFulfilled? && (forall j :: i < j < |t| ==> !t[j].InfoFulfilled?)
        ensures i == k
      {
        assert Assigns(t[i], ChatField);
      }
    }
  }

  /** After opening, `participants` is the last fulfilled roster, and without
      one it is still the roster of whatever chat was shown before. */
  lemma OpenThenSettleParticipants(s: ChatState, t: seq<Event>)
    requires forall i :: 0 <= i < |t| ==> t[i].IsSettlement()
    ensures (forall i :: 0 <= i < |t| ==> !t[i].ParticipantsFulfilled?)
            ==> Run(s, OpenChat + t).participants == s.participants
    ensures forall i :: 0 <= i < |t| && t[i].ParticipantsFulfilled?
                        && (forall j :: i < j < |t| ==> !t[j].ParticipantsFulfilled?)
                        ==> Run(s, OpenChat + t).participants == Some(t[i].participants)
  {
    OpenChatResets(s);
    RunConcat(s, OpenChat, t);
    var s0 := Run(s, OpenChat);
    ParticipantsIsLastAssignment(s0, t);
    var k := LastAssignment(t, ParticipantsField);
    forall i | 0 <= i < |t| && t[i].ParticipantsFulfilled?
               && (forall j :: i < j < |t| ==> !t[j].ParticipantsFulfilled?)
      ensures i == k
    {
      assert Assigns(t[i], ParticipantsField);
    }
  }

  /** After opening, the history is shown exactly when a messages fetch was
      fulfilled and no rejection of ANY of the three fetches arrived after it:
      a failed info or roster fetch wipes a history that already loaded. */
  lemma OpenThenSettleMessages(s: ChatState, t: seq<Event>)
    requires forall i :: 0 <= i < |t| ==> t[i].IsSettlement()
    ensures Run(s, OpenChat + t).messages.Some?
            <==> exists i :: 0 <= i < |t| && t[i].MessagesFulfilled?
                             && forall j :: i < j < |t| ==> !ClearsMessages(t[j])
  {
    OpenChatResets(s);
    RunConcat(s, OpenChat, t);
    var s0 := Run(s, OpenChat);
    assert s0.messages.None?;
    MessagesWithoutLiveAdds(s0, t);
    LastHistoryWriteIsFulfilment(t);
  }

  /** Among settlements, the last one assigning `messages` is a fulfilled
      history fetch exactly when some fulfilled history fetch has no clearing
      settlement after it. */
  lemma {:induction false} LastHistoryWriteIsFulfilment(t: seq<Event>)
    requires forall i :: 0 <= i < |t| ==> t[i].IsSettlement()
    ensures var k := LastAssignment(t, MessagesField);
      (k >= 0 && t[k].MessagesFulfilled?)
      <==> exists i :: 0 <= i < |t| && t[i].MessagesFulfilled?
                       && forall j :: i < j < |t| ==> !ClearsMessages(t[j])
  {
    var k := LastAssignment(t, MessagesField);
    if k >= 0 && t[k].MessagesFulfilled? {
      forall j | k < j < |t|
        ensures !ClearsMessages(t[j])
      {
        assert !Assigns(t[j], MessagesField);
      }
    } else {
      forall i | 0 <= i < |t| && t[i].MessagesFulfilled?
        ensures exists j :: i < j < |t| && ClearsMessages(t[j])
      {
        assert Assigns(t[i], MessagesField);
        assert i < k && ClearsMessages(t[k]);
      }
    }
  }

  /** Info and history load, then the roster fetch fails: the screen ends up
      with the chat but without its history, and with the previous roster. */
  lemma RosterFailureWipesHistory(s: ChatState, c: Chat, ms: seq<Message>)
    ensures Run(s, OpenChat + [InfoFulfilled(c), MessagesFulfilled(ms), ParticipantsRejected(ParticipantsFailure)])
            == ChatState(Some(c), s.participants, None, false)
  {
    var t := [InfoFulfilled(c), MessagesFulfilled(ms), ParticipantsRejected(ParticipantsFailure)];
    OpenChatResets(s);
    RunConcat(s, OpenChat, t);
    var s0 := Run(s, OpenChat);
    RunSnoc(s0, [], InfoFulfilled(c));
    assert [] + [InfoFulfilled(c)] == [InfoFulfilled(c)];
    RunSnoc(s0, [InfoFulfilled(c)], MessagesFulfilled(ms));
    assert [InfoFulfilled(c)] + [MessagesFulfilled(ms)] == [InfoFulfilled(c), MessagesFulfilled(ms)];
    RunSnoc(s0, [InfoFulfilled(c), MessagesFulfilled(ms)], ParticipantsRejected(ParticipantsFailure));
    assert [InfoFulfilled(c), MessagesFulfilled(ms)] + [ParticipantsRejected(ParticipantsFailure)] == t;
  }

  /** The reducer's effect of the action `getChatInfo` settles with: a
      response with a chat installs it; anything else clears `messages` and
      keeps the old chat. */
  lemma InfoResponseEffect(s: ChatState, resp: Response<Chat>)
    ensures var r := Step(s, GetChatInfoSettled(resp));
      && !r.isLoading && r.participants == s.participants
      && (HasField(resp) ==> r.chat == Some(resp.data.value.field.value) && r.messages == s.messages)
      && (!HasField(resp) ==> r.chat == s.chat && r.messages.None?)
  {
  }

  /** The reducer's effect of the action `getChatMessages` settles with: the
      response's list verbatim, or null. */
  lemma MessagesResponseEffect(s: ChatState, resp: Response<seq<Message>>)
    ensures var r := Step(s, GetChatMessagesSettled(resp));
      && !r.isLoading && r.chat == s.chat && r.participants == s.participants
      && (HasField(resp) ==> r.messages == Some(resp.data.value.field.value))
      && (!HasField(resp) ==> r.messages.None?)
  {
  }

  /** The reducer's effect of the action `getChatParticipants` settles with:
      a response with a roster installs it; anything else keeps the old roster
      and clears `messages`. */
  lemma ParticipantsResponseEffect(s: ChatState, resp: Response<seq<User>>)
    ensures var r := Step(s, GetChatParticipantsSettled(resp));
      && !r.isLoading && r.chat == s.chat
      && (HasField(resp) ==> r.participants == Some(resp.data.value.field.value) && r.messages == s.messages)
      && (!HasField(resp) ==> r.participants == s.participants && r.messages.None?)
  {
  }
}
