/** `OllamaRunPresetNode.run`: the preset's text as the system prompt, an optional
    image, a body whose form and `max_tokens` depend on whether an image is attached,
    the attempt loop, and an unload call naming only the endpoint. */
module PresetNode {
  import opened Wrappers
  import opened Imaging
  import opened Chat
  import opened Retry

  /** Errors as "HTTPError {code}: {reason}", unload with the endpoint only, content kept as sent. */
  const PresetPolicy: Policy := Policy(CodeAndReason, StopEndpointOnly, false)

  /** The JSON body: with an image, parts lists and `max_tokens` 1024; without one,
      plain strings and no `max_tokens`; `keep_alive` from the flag either way. */
  function Payload(model: string, system: string, user: string, keepInMemory: bool, url: Option<DataUrl>)
    : (r: ChatRequest)
    ensures WellFormed(r) && r.model == model && SystemPrompt(r) == system && UserPrompt(r) == user
    ensures url.Some? ==> Multimodal(r) && Attachments(r) == [url.value] && r.maxTokens == Some(DefaultMaxTokens)
    ensures url.None? ==> PlainText(r) && Attachments(r) == [] && r.maxTokens.None?
    ensures r.keepAlive == Some(if keepInMemory then -1 else 0)
  {
    MessagesReadBack(model, system, user, if url.Some? then [url.value] else [], Some(KeepAlive(keepInMemory)), Some(DefaultMaxTokens));
    MessagesReadBack(model, system, user, [], Some(KeepAlive(keepInMemory)), None);
    match url
    case Some(u) => ChatRequest(model, PartsMessages(system, user, [u]), Some(KeepAlive(keepInMemory)), Some(DefaultMaxTokens))
    case None => ChatRequest(model, PlainMessages(system, user), Some(KeepAlive(keepInMemory)), None)
  }

  /** `run`, given the preset file's text (empty when the file is missing or unreadable).
      A failed conversion returns its message, and a picture the JPEG writer refuses
      raises out of the call, both before anything is sent. */
  method Run(ipPort: string, presetText: string, modelName: string, userPrompt: string,
             img: Option<ImageInput>, keepInMemory: bool, s: Script)
    returns (response: NodeResult, sent: seq<ChatRequest>, pullsAt: seq<nat>, stops: seq<StopCall>)
    requires s.Valid()
    ensures UrlFor(img).Err? ==> sent == [] && pullsAt == [] && stops == []
    ensures UrlFor(img).Err? && UrlFor(img).error.NotConverted? ==>
      response == Returned("Error converting image: " + ConversionMessage(UrlFor(img).error.reason))
    ensures UrlFor(img).Err? && UrlFor(img).error.NotEncoded? ==>
      response == Raised(UrlFor(img).error.message) && response.exception in {EmptyRefusal, JpegRefusal}
    ensures UrlFor(img).Ok? ==>
      var run := Call(PresetPolicy, keepInMemory, s);
      && response == Returned(Reply(PresetPolicy, run.result))
      && |sent| == run.requests
      && (forall k :: 0 <= k < |sent| ==> sent[k] == Payload(modelName, presetText, userPrompt, keepInMemory, UrlFor(img).value))
      && pullsAt == run.pullsAt
      && stops == (if run.result.Answered? && !keepInMemory then [StopCall(ipPort, None)] else [])
  {
    match UrlFor(img) {
      case Err(NotConverted(e)) =>
        response := Returned("Error converting image: " + ConversionMessage(e));
        sent, pullsAt, stops := [], [], [];
      case Err(NotEncoded(m)) =>
        response := Raised(m);
        sent, pullsAt, stops := [], [], [];
      case Ok(url) =>
        var result;
        result, sent, pullsAt, stops := Send(PresetPolicy, ipPort, modelName, keepInMemory,
                                             Payload(modelName, presetText, userPrompt, keepInMemory, url), s);
        CallStopsOnlyAfterSuccess(PresetPolicy, keepInMemory, s);
        response := Returned(Reply(PresetPolicy, result));
    }
  }
}
