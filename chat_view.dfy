/**
 * The chat panel's conversation state and its send handler: the displayed turns
 * (absent until the first message), the question input and the loading flag.
 */
module ChatView {
  import opened Wrappers
  import opened Messages

  /** The displayed turns, with an absent list read as none. */
  function Listed(messages: Option<seq<Turn>>): seq<Turn> {
    messages.GetOr([])
  }

  /** The list handed to the chat action: the turns so far, then the new user turn. */
  function Outgoing(messages: Option<seq<Turn>>, message: string): seq<Turn> {
    Listed(messages) + [Turn(User, message)]
  }

  /** Whether the action's result is truthy: present and non-empty. */
  predicate HasReply(outcome: ChatOutcome) {
    outcome.Replied? && outcome.content.Some? && outcome.content.value != ""
  }

  /** The displayed turns after one send. */
  function AfterSend(messages: Option<seq<Turn>>, message: string, outcome: ChatOutcome): seq<Turn> {
    Outgoing(messages, message)
      + (if HasReply(outcome) then [Turn(Assistant, outcome.content.value)] else [])
  }

  /** Sending keeps every earlier turn in place and appends the user turn, followed
      by one assistant turn carrying the reply exactly when the reply is truthy. */
  lemma AfterSendAppends(messages: Option<seq<Turn>>, message: string, outcome: ChatOutcome)
    ensures var before := Listed(messages);
            var after := AfterSend(messages, message, outcome);
            && before <= after
            && after[|before|] == Turn(User, message)
            && (HasReply(outcome) ==>
                  |after| == |before| + 2 && after[|before| + 1] == Turn(Assistant, outcome.content.value))
            && (!HasReply(outcome) ==> |after| == |before| + 1)
  {
    var before := Listed(messages);
    var after := AfterSend(messages, message, outcome);
    assert after[..|before|] == before;
  }

  /** A failed call, an absent reply and an empty reply all leave only the user turn. */
  lemma FalsyReplyAddsNothing(messages: Option<seq<Turn>>, message: string, outcome: ChatOutcome)
    requires outcome == Threw || outcome == Replied(None) || outcome == Replied(Some(""))
    ensures AfterSend(messages, message, outcome) == Outgoing(messages, message)
  {
    assert Outgoing(messages, message) + [] == Outgoing(messages, message);
  }

  class ChatSession {
    var messages: Option<seq<Turn>>
    var question: string
    var loading: bool

    constructor ()
      ensures messages == None && question == "" && !loading
    {
      messages := None;
      question := "";
      loading := false;
    }

    /** `handleSendMessage`: raise the loading flag, show the user turn, clear the input,
        call the chat action (`chat`) with the outgoing list, append the assistant turn
        for a truthy reply, and lower the flag whatever happened. `sent` is the list the
        action received; `shownDuringCall`, `questionDuringCall` and `loadingDuringCall`
        are the displayed list, the input and the flag while it ran. */
    method SendMessage(message: string, chat: seq<Turn> -> ChatOutcome)
      returns (sent: seq<Turn>, shownDuringCall: Option<seq<Turn>>, questionDuringCall: string,
               loadingDuringCall: bool)
      modifies this
      ensures sent == Outgoing(old(messages), message)
      ensures shownDuringCall == Some(Outgoing(old(messages), message))
      ensures questionDuringCall == "" && loadingDuringCall
      ensures messages == Some(AfterSend(old(messages), message, chat(sent)))
      ensures question == "" && !loading
    {
      loading := true;
      var questionObj := Turn(User, message);
      var newMessages := if messages.Some? then messages.value + [questionObj] else [questionObj];
      if messages.None? {
        assert Listed(messages) + [questionObj] == [questionObj];
        messages := Some([questionObj]);
      } else {
        messages := Some(messages.value + [questionObj]);
      }
      assert messages == Some(Outgoing(old(messages), message));
      question := "";
      sent := newMessages;
      shownDuringCall, questionDuringCall, loadingDuringCall := messages, question, loading;
      var response := chat(newMessages);
      if response.Replied? && response.content.Some? && response.content.value != "" {
        var responseObject := Turn(Assistant, response.content.value);
        // The user turn is already shown, so the list is present here.
        messages := Some(messages.value + [responseObject]);
      }
      assert !HasReply(chat(sent)) ==> AfterSend(old(messages), message, chat(sent)) == Outgoing(old(messages), message);
      loading := false;
    }
  }
}
