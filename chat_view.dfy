/**
 * The state of the chat page and the handlers that change it: sending the
 * draft (`handleChat`), the Enter key (`handleKeyPress`), clearing the
 * conversation and the persona toggle.
 */
module ChatView {
  import opened Wrappers
  import opened Json
  import opened Personas
  import JsString

  datatype Role = User | Assistant

  /** One entry of the conversation: `{ role, content }`. */
  datatype Message = Message(role: Role, content: Value)

  /**
   * What `await fetch(...)` followed by `await res.json()` gave: the parsed
   * body's `response` field (whatever the HTTP status was), or the message of
   * the exception one of them threw.
   */
  datatype Reply = Parsed(response: Value) | Threw(errorMessage: string)

  /** The body `handleChat` posts: `{ message, persona }`. */
  datatype ChatRequest = ChatRequest(message: string, persona: string)

  /** `!message.trim()`: the draft is empty or only whitespace. */
  predicate IsBlank(draft: string) {
    JsString.Trim(draft) == []
  }

  /** The assistant message `handleChat` appends for a reply. */
  function AssistantMessage(reply: Reply): (m: Message)
    ensures m.role == Assistant
    ensures reply.Parsed? ==> m.content == reply.response
    ensures reply.Threw? ==> m.content == Str("ERROR: " + reply.errorMessage)
  {
    match reply
    case Parsed(response) => Message(Assistant, response)
    case Threw(errorMessage) => Message(Assistant, Str("ERROR: " + errorMessage))
  }

  /** The persona after the toggle: Piyush after Hitesh, Hitesh after anything else. */
  function Toggled(persona: Persona): Persona {
    if persona == Hitesh then Piyush else Hitesh
  }

  /** Toggling always moves to the other persona, and toggling twice restores the original. */
  lemma ToggleAlternates(persona: Persona)
    ensures Toggled(persona) != persona
    ensures Toggled(Toggled(persona)) == persona
    ensures Key(Toggled(persona)) == (if Key(persona) == HiteshKey then PiyushKey else HiteshKey)
  {
  }

  /** The page's state: `message` (the draft), `persona`, `loading` and `conversation`. */
  class Chat {
    var draft: string
    var persona: Persona
    var loading: bool
    var conversation: seq<Message>

    /** The initial state of the page. */
    constructor ()
      ensures draft == [] && persona == Hitesh && !loading && conversation == []
    {
      draft := [];
      persona := Hitesh;
      loading := false;
      conversation := [];
    }

    /** Typing in the text area replaces the draft. */
    method EditDraft(text: string)
      modifies this
      ensures draft == text
      ensures persona == old(persona) && loading == old(loading) && conversation == old(conversation)
    {
      draft := text;
    }

    /**
     * The part of `handleChat` before the request is awaited. A blank draft
     * changes nothing and sends nothing. Otherwise loading starts, the draft
     * is appended as a user message and cleared, and the returned request
     * carries the draft and persona as they were.
     */
    method BeginSend() returns (request: Option<ChatRequest>)
      modifies this
      ensures request.None? <==> IsBlank(old(draft))
      ensures request.None? ==>
                draft == old(draft) && persona == old(persona)
                && loading == old(loading) && conversation == old(conversation)
      ensures request.Some? ==>
                request.value == ChatRequest(old(draft), Key(old(persona)))
                && loading && draft == [] && persona == old(persona)
                && conversation == old(conversation) + [Message(User, Str(old(draft)))]
    {
      if IsBlank(draft) {
        return None;
      }
      request := Some(ChatRequest(draft, Key(persona)));
      loading := true;
      conversation := conversation + [Message(User, Str(draft))];
      draft := [];
    }

    /** The part of `handleChat` after the request settled: the reply is appended and loading ends. */
    method FinishSend(reply: Reply)
      modifies this
      ensures conversation == old(conversation) + [AssistantMessage(reply)]
      ensures !loading && draft == old(draft) && persona == old(persona)
    {
      conversation := conversation + [AssistantMessage(reply)];
      loading := false;
    }

    /**
     * `handleChat` when nothing else happens while the request is in flight:
     * the conversation grows by the user message and exactly one assistant
     * message, earlier messages stay as they were, the draft is cleared and
     * loading has ended.
     */
    method HandleChat(reply: Reply) returns (request: Option<ChatRequest>)
      modifies this
      ensures request.None? <==> IsBlank(old(draft))
      ensures request.None? ==>
                draft == old(draft) && persona == old(persona)
                && loading == old(loading) && conversation == old(conversation)
      ensures request.Some? ==>
                request.value == ChatRequest(old(draft), Key(old(persona)))
                && !loading && draft == [] && persona == old(persona)
                && conversation == old(conversation) + [Message(User, Str(old(draft))), AssistantMessage(reply)]
    {
      request := BeginSend();
      if request.Some? {
        FinishSend(reply);
      }
    }

    /** `handleKeyPress`: Enter without Shift is taken over (its default prevented) and sends. */
    method HandleKeyPress(key: string, shiftKey: bool, reply: Reply) returns (prevented: bool, request: Option<ChatRequest>)
      modifies this
      ensures prevented <==> key == "Enter" && !shiftKey
      ensures !prevented ==>
                request.None? && draft == old(draft) && persona == old(persona)
                && loading == old(loading) && conversation == old(conversation)
      ensures prevented && IsBlank(old(draft)) ==>
                request.None? && draft == old(draft) && persona == old(persona)
                && loading == old(loading) && conversation == old(conversation)
      ensures prevented && !IsBlank(old(draft)) ==>
                request == Some(ChatRequest(old(draft), Key(old(persona))))
                && !loading && draft == [] && persona == old(persona)
                && conversation == old(conversation) + [Message(User, Str(old(draft))), AssistantMessage(reply)]
    {
      prevented := key == "Enter" && !shiftKey;
      request := None;
      if prevented {
        request := HandleChat(reply);
      }
    }

    /** `clearConversation`: the conversation is emptied and nothing else changes. */
    method ClearConversation()
      modifies this
      ensures conversation == []
      ensures draft == old(draft) && persona == old(persona) && loading == old(loading)
    {
      conversation := [];
    }

    /** The persona toggle: the other persona, with the draft and the conversation untouched. */
    method TogglePersona()
      modifies this
      ensures persona == Toggled(old(persona)) && persona != old(persona)
      ensures draft == old(draft) && loading == old(loading) && conversation == old(conversation)
    {
      persona := Toggled(persona);
    }
  }
}
