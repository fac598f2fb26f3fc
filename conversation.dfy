/** `st.session_state.messages`: the session's ordered log of role-tagged
    messages.  It starts empty, a chat turn appends the user's prompt and
    then the assistant's reply, and the "Clear Chat History" button empties
    it. */
module Conversation {
  import opened Prompt

  const UserRole := "user"
  const AssistantRole := "assistant"

  class ConversationLog {
    var messages: seq<Message>

    /** Every message carries one of the two roles the application writes. */
    predicate Valid()
      reads this
    {
      forall i :: 0 <= i < |messages| ==> messages[i].role in {UserRole, AssistantRole}
    }

    /** `st.session_state.messages = []` when the session starts. */
    constructor ()
      ensures Valid() && messages == []
    {
      messages := [];
    }

    /** `messages.append({"role": "user", "content": prompt})`. */
    method AppendUser(prompt: string)
      requires Valid()
      modifies this
      ensures Valid()
      ensures messages == old(messages) + [Message(UserRole, prompt)]
    {
      messages := messages + [Message(UserRole, prompt)];
    }

    /** `messages.append({"role": "assistant", "content": response})`. */
    method AppendAssistant(response: string)
      requires Valid()
      modifies this
      ensures Valid()
      ensures messages == old(messages) + [Message(AssistantRole, response)]
    {
      messages := messages + [Message(AssistantRole, response)];
    }

    /** The "Clear Chat History" button: `messages = []`. */
    method Clear()
      modifies this
      ensures Valid() && messages == []
    {
      messages := [];
    }
  }

  /** Every line of the history block of a valid log is `USER: <content>`
      or `ASSISTANT: <content>` for the message it renders. */
  lemma ValidLogLines(log: ConversationLog, n: MemoryLength, i: int)
    requires log.Valid()
    requires 0 <= i < |HistoryWindow(log.messages, n)|
    ensures var m := HistoryWindow(log.messages, n)[i];
      var line := RenderAll(HistoryWindow(log.messages, n))[i];
      line == "USER: " + m.content || line == "ASSISTANT: " + m.content
  {
    var w := HistoryWindow(log.messages, n);
    assert w[i] == log.messages[|log.messages| - |w| + i];
    RenderRoles(w[i].content);
  }
}
