/** `OllamaVisionNodeBase.call_ollama`: an optional image turned into a JPEG data URL,
    a parts-list or plain-text request with `max_tokens` and `keep_alive`, the attempt
    loop, and an unload call naming the model after a success when the model is not
    to be kept in memory. */
module VisionNode {
  import opened Wrappers
  import opened Imaging
  import opened Chat
  import opened Retry

  /** Errors as "HTTPError {code}: {reason}", unload with the model name, content kept as sent. */
  const VisionPolicy: Policy := Policy(CodeAndReason, StopWithModel, false)

  /** The messages: parts lists when an image is attached, plain strings otherwise. */
  function Messages(system: string, user: string, url: Option<DataUrl>): (ms: seq<Message>) {
    match url
    case Some(u) => PartsMessages(system, user, [u])
    case None => PlainMessages(system, user)
  }

  /** The JSON body: `max_tokens` always present, `keep_alive` from the flag. */
  function Payload(model: string, system: string, user: string, keepInMemory: bool, url: Option<DataUrl>, maxTokens: int)
    : (r: ChatRequest)
    ensures WellFormed(r) && r.model == model && SystemPrompt(r) == system && UserPrompt(r) == user
    ensures url.Some? ==> Multimodal(r) && Attachments(r) == [url.value]
    ensures url.None? ==> PlainText(r) && Attachments(r) == []
    ensures r.maxTokens == Some(maxTokens)
    ensures r.keepAlive == Some(if keepInMemory then -1 else 0)
  {
    MessagesReadBack(model, system, user, if url.Some? then [url.value] else [], Some(KeepAlive(keepInMemory)), Some(maxTokens));
    ChatRequest(model, Messages(system, user, url), Some(KeepAlive(keepInMemory)), Some(maxTokens))
  }

  /** `call_ollama`. A failed conversion returns its message before anything is sent;
      a picture the JPEG writer refuses raises out of the call, also before anything is
      sent; otherwise the body is POSTed through the attempt loop. */
  method CallOllama(ipPort: string, modelName: string, systemPrompt: string, userPrompt: string,
                    keepInMemory: bool, img: Option<ImageInput>, maxTokens: int, s: Script)
    returns (response: NodeResult, sent: seq<ChatRequest>, pullsAt: seq<nat>, stops: seq<StopCall>)
    requires s.Valid()
    ensures UrlFor(img).Err? ==> sent == [] && pullsAt == [] && stops == []
    ensures UrlFor(img).Err? && UrlFor(img).error.NotConverted? ==>
      response == Returned("Error converting image: " + ConversionMessage(UrlFor(img).error.reason))
    ensures UrlFor(img).Err? && UrlFor(img).error.NotEncoded? ==>
      response == Raised(UrlFor(img).error.message) && response.exception in {EmptyRefusal, JpegRefusal}
    ensures UrlFor(img).Ok? ==>
      var run := Call(VisionPolicy, keepInMemory, s);
      var body := Payload(modelName, systemPrompt, userPrompt, keepInMemory, UrlFor(img).value, maxTokens);
      && response == Returned(Reply(VisionPolicy, run.result))
      && |sent| == run.requests && (forall k :: 0 <= k < |sent| ==> sent[k] == body)
      && pullsAt == run.pullsAt
      && stops == (if run.result.Answered? && !keepInMemory then [StopCall(ipPort, Some(modelName))] else [])
  {
    match UrlFor(img) {
      case Err(NotConverted(e)) =>
        response := Returned("Error converting image: " + ConversionMessage(e));
        sent, pullsAt, stops := [], [], [];
      case Err(NotEncoded(m)) =>
        response := Raised(m);
        sent, pullsAt, stops := [], [], [];
      case Ok(url) =>
        var result;
        result, sent, pullsAt, stops := Send(VisionPolicy, ipPort, modelName, keepInMemory,
                                             Payload(modelName, systemPrompt, userPrompt, keepInMemory, url, maxTokens), s);
        CallStopsOnlyAfterSuccess(VisionPolicy, keepInMemory, s);
        response := Returned(Reply(VisionPolicy, result));
    }
  }
}
