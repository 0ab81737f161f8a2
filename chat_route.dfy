/**
 * The `POST` handler of the chat API route: rate limiting, reading the body,
 * choosing the persona prompt, calling the model and shaping the reply.
 * Every awaited call is an input to the model: the limiter's decision, the
 * parsed body and the provider's completion, each of which may also throw.
 */
module ChatRoute {
  import opened Wrappers
  import opened Json
  import opened Personas

  const ModelId := "gemini-2.5-flash"
  const RateLimitedError := "Too many requests, try again in a minute"
  const FailureError := "Failed to process request"

  /** What the limiter's `protect` call gave. */
  datatype Decision = Allowed | Denied | LimiterThrew

  /** What `request.json()` and the destructuring of `{ message, persona }` gave. */
  datatype RequestBody = Body(message: Value, persona: Value) | BodyThrew

  /** One entry of `completion.choices`; an entry without a `message` makes the handler throw. */
  datatype Choice = Choice(message: Option<Value>)

  /** What the provider's `chat.completions.create` call gave. */
  datatype Completion = Completed(choices: seq<Choice>) | ProviderThrew

  datatype Role = System | User
  datatype ModelMessage = ModelMessage(role: Role, content: Value)

  /** The request sent to the model provider. */
  datatype ModelRequest = ModelRequest(model: string, messages: seq<ModelMessage>)

  /** The JSON body of the route's response: `{ error }` or `{ response }`. */
  datatype ResponseBody = ErrorBody(error: string) | ReplyBody(response: Value)

  datatype Response = Response(status: nat, body: ResponseBody)

  /** Everything one call did: its response, whether it read the body, and the request it sent to the model, if any. */
  datatype Outcome = Outcome(response: Response, bodyRead: bool, sent: Option<ModelRequest>)

  /** The prompt of the persona the body names: Hitesh's for exactly `"hiteshSir"`, Piyush's for anything else. */
  function PersonaPrompt(persona: Value, prompts: PromptTexts): string {
    if persona == Str(HiteshKey) then prompts.hitesh else prompts.piyush
  }

  /** The response of the `catch` branch. */
  const Failure := Response(500, ErrorBody(FailureError))

  /** The response built from a completion: the first choice's content, or the failure when reading it throws. */
  function Reply(completion: Completion): Response {
    match completion
    case ProviderThrew => Failure
    case Completed(choices) =>
      if |choices| == 0 || choices[0].message.None? then Failure
      else Response(200, ReplyBody(choices[0].message.value))
  }

  /** `POST(request)` */
  function Post(decision: Decision, body: RequestBody, completion: Completion, prompts: PromptTexts): (o: Outcome)
    // A denied request gets exactly the rate-limit reply, before anything else happens.
    ensures o.response.status == 429 <==> decision == Denied
    ensures decision == Denied ==> o == Outcome(Response(429, ErrorBody(RateLimitedError)), false, None)
    // The body is read only once the limiter allowed the request.
    ensures o.bodyRead <==> decision == Allowed
    // The model is called exactly when the body was read, with the fixed model id,
    // the selected system prompt and the raw message, and no history.
    ensures o.sent.Some? <==> decision == Allowed && body.Body?
    ensures o.sent.Some? ==>
              o.sent.value.model == ModelId && |o.sent.value.messages| == 2
              && o.sent.value.messages[0] == ModelMessage(System, Str(PersonaPrompt(body.persona, prompts)))
              && o.sent.value.messages[1] == ModelMessage(User, body.message)
    // Success returns the first choice's content unchanged.
    ensures o.response.status == 200 <==>
              decision == Allowed && body.Body? && completion.Completed?
              && |completion.choices| > 0 && completion.choices[0].message.Some?
    ensures o.response.status == 200 ==> o.response.body == ReplyBody(completion.choices[0].message.value)
    // Everything else that goes wrong is one failure reply.
    ensures o.response.status != 200 && o.response.status != 429 ==> o.response == Failure
  {
    match decision
    case LimiterThrew => Outcome(Failure, false, None)
    case Denied => Outcome(Response(429, ErrorBody(RateLimitedError)), false, None)
    case Allowed =>
      match body
      case BodyThrew => Outcome(Failure, true, None)
      case Body(message, persona) =>
        var request := ModelRequest(ModelId, [
          ModelMessage(System, Str(PersonaPrompt(persona, prompts))),
          ModelMessage(User, message)
        ]);
        Outcome(Reply(completion), true, Some(request))
  }

  /** Persona `"hiteshSir"` selects Hitesh's prompt; any other value, a missing one included, selects Piyush's. */
  lemma PersonaPromptChoice(persona: Value, prompts: PromptTexts)
    requires prompts.hitesh != prompts.piyush
    ensures PersonaPrompt(persona, prompts) == prompts.hitesh <==> persona == Str(HiteshKey)
    ensures PersonaPrompt(persona, prompts) == prompts.piyush <==> persona != Str(HiteshKey)
  {
  }

  /** The status is always one of the three the handler writes. */
  lemma PostStatuses(decision: Decision, body: RequestBody, completion: Completion, prompts: PromptTexts)
    ensures Post(decision, body, completion, prompts).response.status in {200, 429, 500}
  {
  }
}
