/**
 * The chat transcript kept by the application session: an ordered list of messages
 * and two flags recording whether the navigation and program modes have greeted yet.
 */
module Conversation {

  /** One transcript entry; the timestamp is the formatted wall-clock time, given by the caller. */
  datatype ChatMessage = ChatMessage(content: string, timestamp: string, isUser: bool)

  class NavigationState {
    var messages: seq<ChatMessage>
    var initializedNavigation: bool
    var initializedProgram: bool

    constructor ()
      ensures messages == [] && !initializedNavigation && !initializedProgram
    {
      messages := [];
      initializedNavigation := false;
      initializedProgram := false;
    }

    /** `add_message`: append exactly one message; earlier messages and both flags stay. */
    method AddMessage(content: string, timestamp: string, isUser: bool)
      modifies this
      ensures messages == old(messages) + [ChatMessage(content, timestamp, isUser)]
      ensures |messages| == |old(messages)| + 1 && old(messages) <= messages
      ensures initializedNavigation == old(initializedNavigation)
      ensures initializedProgram == old(initializedProgram)
    {
      messages := messages + [ChatMessage(content, timestamp, isUser)];
    }

    /** `clear_history`: empty the transcript and reset both mode flags. */
    method ClearHistory()
      modifies this
      ensures messages == [] && !initializedNavigation && !initializedProgram
    {
      messages := [];
      initializedNavigation := false;
      initializedProgram := false;
    }
  }
}
