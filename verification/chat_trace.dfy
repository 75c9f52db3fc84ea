/** The reducer folded over sequences of actions. The three fetches settle in
    any order and live messages arrive at any time, so every interleaving is
    just some sequence; the theorems here say what the state is after ANY
    sequence: each field holds what the last action assigning it wrote. */
module ChatTrace {
  import opened Optional
  import opened ChatTypes
  import opened ChatReducer

  /** The state after dispatching `es` in order, starting from `s`. */
  function Run(s: ChatState, es: seq<Event>): (r: ChatState)
    ensures s.participants.Some? ==> r.participants.Some?
    ensures (forall i :: 0 <= i < |es| ==> !es[i].IsFetch()) ==> r.isLoading == s.isLoading
    decreases |es|
  {
    if |es| == 0 then s else Step(Run(s, es[..|es| - 1]), es[|es| - 1])
  }

  /** Action `e` assigns field `f` a value that does not depend on the state
      before it. Every fetch action does so for each field it writes;
      `addMessageToCurrentChat` extends the list instead. */
  predicate Assigns(e: Event, f: Field) {
    e.IsFetch() && f in Writes(e)
  }

  /** The loading flag is assigned by exactly the nine fetch actions. */
  lemma AssignsLoading(e: Event)
    ensures Assigns(e, LoadingField) <==> e.IsFetch()
  {
  }

  /** Apart from `messages`, a field an action writes is one it assigns. */
  lemma OnlyFetchesAssign(e: Event, f: Field)
    requires f != MessagesField && !Assigns(e, f)
    ensures f !in Writes(e)
  {
    if e.AddMessageToCurrentChat? {
      assert Writes(e) == {MessagesField};
    }
  }

  /** The roster is assigned by its fulfilment and nothing else. */
  lemma AssignsParticipants(e: Event)
    ensures Assigns(e, ParticipantsField) <==> e.ParticipantsFulfilled?
  {
  }

  /** The index of the last action in `es` that assigns `f`, or -1. */
  function LastAssignment(es: seq<Event>, f: Field): (k: int)
    ensures -1 <= k < |es|
    ensures k >= 0 ==> Assigns(es[k], f)
    ensures forall j :: k < j < |es| ==> !Assigns(es[j], f)
    decreases |es|
  {
    if |es| == 0 then -1
    else if Assigns(es[|es| - 1], f) then |es| - 1
    else LastAssignment(es[..|es| - 1], f)
  }

  /** The messages that `addMessageToCurrentChat` actions in `es` append, in order. */
  function AddedMessages(es: seq<Event>): (ms: seq<Message>)
    ensures forall m :: m in ms ==> AddMessageToCurrentChat(m) in es
    ensures (forall i :: 0 <= i < |es| ==> es[i].IsFetch()) ==> ms == []
    decreases |es|
  {
    if |es| == 0 then []
    else
      AddedMessages(es[..|es| - 1])
      + match es[|es| - 1] case AddMessageToCurrentChat(m) => [m] case _ => []
  }

  /** A message list after `added` has been appended to `m0` one by one. */
  function Appended(m0: Option<seq<Message>>, added: seq<Message>): Option<seq<Message>> {
    if added == [] then m0 else Some(m0.GetOr([]) + added)
  }

  /** The message list a fetch action assigns. */
  function AssignedMessages(e: Event): Option<seq<Message>>
    requires Assigns(e, MessagesField)
  {
    if e.MessagesFulfilled? then Some(e.messages) else None
  }

  /** No action in `es` writes `f`. */
  predicate Untouched(es: seq<Event>, f: Field) {
    forall i :: 0 <= i < |es| ==> f !in Writes(es[i])
  }

  lemma RunSnoc(s: ChatState, a: seq<Event>, e: Event)
    ensures Run(s, a + [e]) == Step(Run(s, a), e)
  {
    assert (a + [e])[..|a + [e]| - 1] == a;
  }

  /** Dispatching `a + b` is dispatching `a`, then `b`. */
  lemma {:induction false} RunConcat(s: ChatState, a: seq<Event>, b: seq<Event>)
    ensures Run(s, a + b) == Run(Run(s, a), b)
    decreases |b|
  {
    if |b| == 0 {
      assert a + b == a;
    } else {
      var b', e := b[..|b| - 1], b[|b| - 1];
      assert b == b' + [e];
      assert a + b == (a + b') + [e];
      RunSnoc(s, a + b', e);
      RunSnoc(Run(s, a), b', e);
      RunConcat(s, a, b');
    }
  }

  /** A field no action in `es` writes keeps its value. */
  lemma {:induction false} RunFrame(s: ChatState, es: seq<Event>, f: Field)
    requires Untouched(es, f)
    ensures Agree(s, Run(s, es), f)
    decreases |es|
  {
    if |es| > 0 {
      RunFrame(s, es[..|es| - 1], f);
    }
  }

  /** The state after `es` seen around its `k`-th action. */
  lemma {:induction false} RunAround(s: ChatState, es: seq<Event>, k: nat)
    requires k < |es|
    ensures Run(s, es) == Run(Step(Run(s, es[..k]), es[k]), es[k + 1..])
  {
    assert es == es[..k] + [es[k]] + es[k + 1..];
    RunConcat(s, es[..k] + [es[k]], es[k + 1..]);
    RunSnoc(s, es[..k], es[k]);
  }

  /** Only fetch actions write the chat, the roster and the loading flag, so
      after the last assignment of such a field nothing writes it. */
  lemma {:induction false} NothingWritesAfterLast(es: seq<Event>, f: Field)
    requires f != MessagesField
    ensures Untouched(es[LastAssignment(es, f) + 1..], f)
  {
    var k := LastAssignment(es, f);
    var rest := es[k + 1..];
    forall i | 0 <= i < |rest|
      ensures f !in Writes(rest[i])
    {
      assert rest[i] == es[k + 1 + i];
      OnlyFetchesAssign(es[k + 1 + i], f);
    }
  }

  /** `chat` is what the last `getChatInfo` pending (null) or fulfilled
      (its payload) action wrote, or its starting value if there is none. */
  lemma {:induction false} ChatIsLastAssignment(s: ChatState, es: seq<Event>)
    ensures var k := LastAssignment(es, ChatField);
      Run(s, es).chat == if k < 0 then s.chat
                         else if es[k].InfoFulfilled? then Some(es[k].chat)
                         else None
  {
    var k := LastAssignment(es, ChatField);
    NothingWritesAfterLast(es, ChatField);
    if k < 0 {
      assert es[k + 1..] == es;
      RunFrame(s, es, ChatField);
    } else {
      var t := Step(Run(s, es[..k]), es[k]);
      assert t.chat == if es[k].InfoFulfilled? then Some(es[k].chat) else None;
      RunAround(s, es, k);
      RunFrame(t, es[k + 1..], ChatField);
    }
  }

  /** `participants` is the payload of the last `getChatParticipants`
      fulfilled action, or its starting value if there is none: no action
      ever resets it. */
  lemma {:induction false} ParticipantsIsLastAssignment(s: ChatState, es: seq<Event>)
    ensures var k := LastAssignment(es, ParticipantsField);
      Run(s, es).participants == if k < 0 then s.participants
                                 else Some(es[k].participants)
  {
    var k := LastAssignment(es, ParticipantsField);
    NothingWritesAfterLast(es, ParticipantsField);
    if k < 0 {
      assert es[k + 1..] == es;
      RunFrame(s, es, ParticipantsField);
    } else {
      var t := Step(Run(s, es[..k]), es[k]);
      assert t.participants == Some(es[k].participants);
      RunAround(s, es, k);
      RunFrame(t, es[k + 1..], ParticipantsField);
    }
  }

  /** `isLoading` is true exactly when the last fetch action was a pending
      one, whatever the other fetches are still doing; with no fetch action
      it keeps its starting value. */
  lemma {:induction false} LoadingIsLastAssignment(s: ChatState, es: seq<Event>)
    ensures var k := LastAssignment(es, LoadingField);
      Run(s, es).isLoading == if k < 0 then s.isLoading else es[k].IsPending()
  {
    var k := LastAssignment(es, LoadingField);
    NothingWritesAfterLast(es, LoadingField);
    if k < 0 {
      assert es[k + 1..] == es;
      RunFrame(s, es, LoadingField);
    } else {
      var t := Step(Run(s, es[..k]), es[k]);
      assert t.isLoading == es[k].IsPending();
      RunAround(s, es, k);
      RunFrame(t, es[k + 1..], LoadingField);
    }
  }

  /** Without a fetch action that assigns `messages`, the list only grows by
      the appended messages, in arrival order. */
  lemma {:induction false} MessagesOnlyAppended(s: ChatState, es: seq<Event>)
    requires forall i :: 0 <= i < |es| ==> !Assigns(es[i], MessagesField)
    ensures Run(s, es).messages == Appended(s.messages, AddedMessages(es))
    decreases |es|
  {
    if |es| > 0 {
      var p := es[..|es| - 1];
      var e := es[|es| - 1];
      MessagesOnlyAppended(s, p);
      var base := s.messages.GetOr([]);
      var added := AddedMessages(p);
      if e.AddMessageToCurrentChat? {
        var m := e.message;
        assert AddedMessages(es) == added + [m];
        assert Run(s, p).messages.GetOr([]) == base + added by {
          if added == [] { assert base + added == base; }
        }
        assert base + (added + [m]) == (base + added) + [m];
      } else {
        assert AddedMessages(es) == added;
        assert MessagesField !in Writes(e);
      }
    }
  }

  /** `messages` is the list the last fetch action assigning it wrote (the
      history payload, or null for the five clearing actions), extended by
      every message appended after it; with no such action it is the starting
      list extended by every appended message. */
  lemma MessagesIsLastAssignment(s: ChatState, es: seq<Event>)
    ensures var k := LastAssignment(es, MessagesField);
      Run(s, es).messages == if k < 0 then Appended(s.messages, AddedMessages(es))
                             else Appended(AssignedMessages(es[k]), AddedMessages(es[k + 1..]))
  {
    var k := LastAssignment(es, MessagesField);
    if k < 0 {
      MessagesOnlyAppended(s, es);
    } else {
      var t := Step(Run(s, es[..k]), es[k]);
      RunAround(s, es, k);
      assert t.messages == AssignedMessages(es[k]);
      var rest := es[k + 1..];
      forall i | 0 <= i < |rest|
        ensures !Assigns(rest[i], MessagesField)
      {
        assert !Assigns(es[k + 1 + i], MessagesField);
      }
      MessagesOnlyAppended(t, es[k + 1..]);
    }
  }

  /** A sequence of fetch actions appends no message. */
  lemma NoLiveAdds(es: seq<Event>)
    requires forall i :: 0 <= i < |es| ==> es[i].IsFetch()
    ensures AddedMessages(es) == []
  {
  }

  /** Without live messages, `messages` is what the last fetch action
      assigning it wrote, or its starting value if there is none. */
  lemma {:induction false} MessagesWithoutLiveAdds(s: ChatState, es: seq<Event>)
    requires forall i :: 0 <= i < |es| ==> es[i].IsFetch()
    ensures var k := LastAssignment(es, MessagesField);
      Run(s, es).messages == if k < 0 then s.messages else AssignedMessages(es[k])
  {
    MessagesIsLastAssignment(s, es);
    var k := LastAssignment(es, MessagesField);
    if k >= 0 {
      var rest := es[k + 1..];
      forall j | 0 <= j < |rest|
        ensures rest[j].IsFetch()
      {
        assert rest[j] == es[k + 1 + j];
      }
      NoLiveAdds(rest);
    } else {
      NoLiveAdds(es);
    }
  }
}
