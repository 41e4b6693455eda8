/** `OllamaReasoningNode.run`: a plain-text request with `keep_alive`, the attempt
    loop, and a `(thoughts, response)` pair: the split content on a success, empty
    thoughts and the error text otherwise. */
module ReasoningNode {
  import opened Wrappers
  import opened Chat
  import opened Retry
  import opened AnswerSplit

  /** Errors as "HTTPError {code}: {reason}", unload with the model name, content kept as sent. */
  const ReasoningPolicy: Policy := Policy(CodeAndReason, StopWithModel, false)

  /** The JSON body: plain strings, `keep_alive` from the flag, no `max_tokens`. */
  function Payload(model: string, system: string, user: string, keepInMemory: bool): (r: ChatRequest)
    ensures WellFormed(r) && PlainText(r)
    ensures r.model == model && SystemPrompt(r) == system && UserPrompt(r) == user
    ensures r.maxTokens.None? && r.keepAlive == Some(if keepInMemory then -1 else 0)
  {
    MessagesReadBack(model, system, user, [], Some(KeepAlive(keepInMemory)), None);
    ChatRequest(model, PlainMessages(system, user), Some(KeepAlive(keepInMemory)), None)
  }

  /** The pair the node returns for a finished call. */
  function Outputs(t: Terminal): (r: (string, string))
    ensures t.Answered? ==> r == ParseAnswer(t.text)
    ensures t.Failed? ==> r.0 == [] && "Error: " <= r.1
  {
    match t
    case Answered(text) => ParseAnswer(text)
    case Failed(e) => ("", ErrorText(ReasoningPolicy.format, e))
  }

  /** `run`. */
  method Run(ipPort: string, modelName: string, systemPrompt: string, userPrompt: string, keepInMemory: bool, s: Script)
    returns (thoughts: string, response: string, sent: seq<ChatRequest>, pullsAt: seq<nat>, stops: seq<StopCall>)
    requires s.Valid()
    ensures var run := Call(ReasoningPolicy, keepInMemory, s);
      && (thoughts, response) == Outputs(run.result)
      && |sent| == run.requests
      && (forall k :: 0 <= k < |sent| ==> sent[k] == Payload(modelName, systemPrompt, userPrompt, keepInMemory))
      && pullsAt == run.pullsAt
      && stops == (if run.result.Answered? && !keepInMemory then [StopCall(ipPort, Some(modelName))] else [])
  {
    var result;
    result, sent, pullsAt, stops := Send(ReasoningPolicy, ipPort, modelName, keepInMemory,
                                         Payload(modelName, systemPrompt, userPrompt, keepInMemory), s);
    CallStopsOnlyAfterSuccess(ReasoningPolicy, keepInMemory, s);
    thoughts, response := Outputs(result).0, Outputs(result).1;
  }

  /** A reply without a line break comes back whole as the response, with no thoughts. */
  lemma UnsplitReply(keepInMemory: bool, s: Script)
    requires s.Valid()
    ensures var r := Call(ReasoningPolicy, keepInMemory, s);
      r.result.Answered? && '\n' !in r.result.text ==> Outputs(r.result) == ("", r.result.text)
  {
    var r := Call(ReasoningPolicy, keepInMemory, s);
    if r.result.Answered? && '\n' !in r.result.text {
      NoLineBreakNoSplit(r.result.text);
    }
  }
}
