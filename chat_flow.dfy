/**
 * One message's round trip: the page posts its draft and persona to the
 * chat route, and appends whatever the parsed reply holds in `response`.
 * The page never looks at the status, so a refused or failed call shows up
 * as an assistant message whose content is `undefined`.
 */
module ChatFlow {
  import opened Wrappers
  import opened Json
  import opened Personas
  import ChatRoute
  import opened ChatView

  /** The JSON body the page posts, as the route reads it back. */
  function RouteBody(request: ChatRequest): (b: ChatRoute.RequestBody)
    ensures b.Body? && b.message == Str(request.message) && b.persona == Str(request.persona)
  {
    ChatRoute.Body(Str(request.message), Str(request.persona))
  }

  /**
   * What `res.json()` gives the page: a reply body's `response`, and for an
   * error body (which has no such field) `undefined`.
   */
  function Receive(o: ChatRoute.Outcome): (r: Reply)
    ensures r.Parsed?
    ensures o.response.body.ReplyBody? ==> r.response == o.response.body.response
    ensures o.response.body.ErrorBody? ==> r.response == Undefined
  {
    match o.response.body
    case ReplyBody(v) => Parsed(v)
    case ErrorBody(_) => Parsed(Undefined)
  }

  /**
   * Sending a non-blank draft to the route and showing its reply: the
   * conversation gains the user's message and the assistant message built
   * from the route's answer to exactly the draft and persona the page had.
   */
  method Exchange(chat: Chat, decision: ChatRoute.Decision, completion: ChatRoute.Completion, prompts: PromptTexts)
    returns (o: Option<ChatRoute.Outcome>)
    modifies chat
    ensures o.None? <==> IsBlank(old(chat.draft))
    ensures o.None? ==>
              chat.draft == old(chat.draft) && chat.persona == old(chat.persona)
              && chat.loading == old(chat.loading) && chat.conversation == old(chat.conversation)
    ensures o.Some? ==>
              o.value == ChatRoute.Post(decision, RouteBody(ChatRequest(old(chat.draft), Key(old(chat.persona)))), completion, prompts)
              && chat.conversation == old(chat.conversation)
                   + [Message(User, Str(old(chat.draft))), AssistantMessage(Receive(o.value))]
              && chat.draft == [] && !chat.loading && chat.persona == old(chat.persona)
  {
    var request := chat.BeginSend();
    if request.None? {
      return None;
    }
    var outcome := ChatRoute.Post(decision, RouteBody(request.value), completion, prompts);
    chat.FinishSend(Receive(outcome));
    o := Some(outcome);
  }

  /** An answered request shows the model's first choice as the assistant's message. */
  lemma AnswerShown(request: ChatRequest, completion: ChatRoute.Completion, prompts: PromptTexts, v: Value)
    requires completion.Completed? && |completion.choices| > 0 && completion.choices[0].message == Some(v)
    ensures AssistantMessage(Receive(ChatRoute.Post(ChatRoute.Allowed, RouteBody(request), completion, prompts)))
            == Message(Assistant, v)
  {
  }

  /**
   * The assistant's content is a model answer exactly when the route
   * answered 200; a rate-limited or failed call shows `undefined`.
   */
  lemma RefusalShowsUndefined(request: ChatRequest, decision: ChatRoute.Decision, completion: ChatRoute.Completion, prompts: PromptTexts)
    ensures var o := ChatRoute.Post(decision, RouteBody(request), completion, prompts);
            o.response.status != 200 ==> AssistantMessage(Receive(o)) == Message(Assistant, Undefined)
    ensures var o := ChatRoute.Post(decision, RouteBody(request), completion, prompts);
            o.response.status == 200 ==>
              AssistantMessage(Receive(o)) == Message(Assistant, completion.choices[0].message.value)
  {
  }

  /**
   * The persona the page holds picks the system prompt the route sends:
   * Hitesh's for `"hiteshSir"`, Piyush's for `"piyushSir"`, and the user
   * turn is the draft as typed, untrimmed.
   */
  lemma PersonaReachesModel(draft: string, persona: Persona, completion: ChatRoute.Completion, prompts: PromptTexts)
    ensures var o := ChatRoute.Post(ChatRoute.Allowed, RouteBody(ChatRequest(draft, Key(persona))), completion, prompts);
            o.sent.Some?
            && o.sent.value.messages[0].content == Str(if persona == Hitesh then prompts.hitesh else prompts.piyush)
            && o.sent.value.messages[1].content == Str(draft)
  {
  }
}
