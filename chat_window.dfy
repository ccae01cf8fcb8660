/**
 * The event chat window: a list of messages shown in order and the draft
 * bound to the text input. Sending appends a non-empty draft and clears it.
 */
module ChatWindow {
  const Greeting: string := "Hello, welcome!"

  class Window {
    var messages: seq<string>
    var newMessage: string

    /** The greeting stays first and no shown message is empty. */
    ghost predicate Valid()
      reads this
    {
      |messages| >= 1 && messages[0] == Greeting &&
      forall k :: 0 <= k < |messages| ==> messages[k] != ""
    }

    /** The window opens with only the greeting and an empty draft. */
    constructor ()
      ensures Valid()
      ensures messages == [Greeting] && newMessage == ""
    {
      messages := [Greeting];
      newMessage := "";
    }

    /** The input's `onChange`: the draft becomes the typed text. */
    method SetDraft(text: string)
      requires Valid()
      modifies this
      ensures Valid()
      ensures newMessage == text && messages == old(messages)
    {
      newMessage := text;
    }

    /**
     * `sendMessage`: an empty draft changes nothing; otherwise the draft is
     * appended after every earlier message, unchanged, and then cleared.
     */
    method SendMessage()
      requires Valid()
      modifies this
      ensures Valid()
      ensures old(newMessage) == "" ==> messages == old(messages) && newMessage == ""
      ensures old(newMessage) != "" ==>
        messages == old(messages) + [old(newMessage)] && newMessage == ""
    {
      if newMessage != "" {
        messages := messages + [newMessage];
        newMessage := "";
      }
    }
  }
}
