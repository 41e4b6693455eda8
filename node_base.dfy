/** `OllamaNodeBase.call_ollama`: a plain-text chat request with neither `keep_alive`
    nor `max_tokens`, sent through the attempt loop; the model is never unloaded. */
module NodeBase {
  import opened Wrappers
  import opened Chat
  import opened Retry

  /** Errors as "HTTPError {code}: {reason}", no unload call, content kept as sent. */
  const BasePolicy: Policy := Policy(CodeAndReason, NeverStop, false)

  /** The JSON body, built once before the loop. */
  function Payload(model: string, system: string, user: string): (r: ChatRequest)
    ensures WellFormed(r) && PlainText(r)
    ensures r.model == model && SystemPrompt(r) == system && UserPrompt(r) == user
    ensures Attachments(r) == [] && r.keepAlive.None? && r.maxTokens.None?
  {
    MessagesReadBack(model, system, user, [], None, None);
    ChatRequest(model, PlainMessages(system, user), None, None)
  }

  /** `call_ollama`: the response string, the POSTs sent (each the same body), the
      attempts at which the model was pulled, and the unload calls made (none). */
  method CallOllama(ipPort: string, modelName: string, systemPrompt: string, userPrompt: string, s: Script)
    returns (response: string, sent: seq<ChatRequest>, pullsAt: seq<nat>, stops: seq<StopCall>)
    requires s.Valid()
    ensures var run := Call(BasePolicy, true, s);
      && response == Reply(BasePolicy, run.result)
      && |sent| == run.requests && (forall k :: 0 <= k < |sent| ==> sent[k] == Payload(modelName, systemPrompt, userPrompt))
      && pullsAt == run.pullsAt
    ensures stops == []
  {
    var result;
    result, sent, pullsAt, stops := Send(BasePolicy, ipPort, modelName, true, Payload(modelName, systemPrompt, userPrompt), s);
    CallStopsOnlyAfterSuccess(BasePolicy, true, s);
    response := Reply(BasePolicy, result);
  }
}
