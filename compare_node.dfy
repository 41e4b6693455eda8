/** `OllamaCompareImageNode.compare`: two images converted up front, one request
    carrying both in order, stripped content, HTTP errors reported by code only, and
    an unload call naming the model. */
module CompareNode {
  import opened Wrappers
  import opened Imaging
  import opened Text
  import opened Chat
  import opened Retry

  /** Errors as "HTTP {code}", unload with the model name, content stripped. */
  const ComparePolicy: Policy := Policy(CodeOnly, StopWithModel, true)

  /** The JSON body: the system text as one part, the user text then the first image,
      then the second; no `max_tokens`. */
  function Payload(model: string, system: string, user: string, keepInMemory: bool, first: DataUrl, second: DataUrl)
    : (r: ChatRequest)
    ensures WellFormed(r) && Multimodal(r) && r.model == model
    ensures SystemPrompt(r) == system && UserPrompt(r) == user && Attachments(r) == [first, second]
    ensures r.maxTokens.None? && r.keepAlive == Some(if keepInMemory then -1 else 0)
  {
    MessagesReadBack(model, system, user, [first, second], Some(KeepAlive(keepInMemory)), None);
    ChatRequest(model, PartsMessages(system, user, [first, second]), Some(KeepAlive(keepInMemory)), None)
  }

  /** Both conversions, the first image first: the first error stops it. */
  function BothPictures(image1: ImageInput, image2: ImageInput): (r: Result<(Picture, Picture), ConversionError>)
    ensures r.Ok? <==> ToPicture(image1).Ok? && ToPicture(image2).Ok?
    ensures r.Ok? ==> r.value == (ToPicture(image1).value, ToPicture(image2).value)
    ensures ToPicture(image1).Err? ==> r == Err(ToPicture(image1).error)
    ensures ToPicture(image1).Ok? && ToPicture(image2).Err? ==> r == Err(ToPicture(image2).error)
  {
    match ToPicture(image1)
    case Err(e) => Err(e)
    case Ok(p1) =>
      match ToPicture(image2)
      case Err(e) => Err(e)
      case Ok(p2) => Ok((p1, p2))
  }

  /** `_to_data_url` of both pictures, the first first; it works on a copy, so the
      caller's pictures are untouched. */
  function BothUrls(pics: (Picture, Picture)): (r: Result<(DataUrl, DataUrl), string>)
    ensures r.Ok? <==> Encodable(pics.0) && Encodable(pics.1)
    ensures r.Ok? ==> r.value.0.picture == pics.0 && r.value.1.picture == pics.1
    ensures r.Err? && !Encodable(pics.0) ==> r.error == EncodeJpeg(pics.0).error
    ensures r.Err? && Encodable(pics.0) ==> r.error == EncodeJpeg(pics.1).error
    ensures r.Err? ==> r.error in {EmptyRefusal, JpegRefusal}
  {
    match EncodeJpeg(pics.0)
    case Err(m) => Err(m)
    case Ok(u1) =>
      match EncodeJpeg(pics.1)
      case Err(m) => Err(m)
      case Ok(u2) => Ok((u1, u2))
  }

  /** `compare`. A failed conversion of either image returns its message, and a picture
      the JPEG writer refuses raises out of the call, both before anything is sent. */
  method Compare(ipPort: string, modelName: string, systemPrompt: string, userPrompt: string,
                 image1: ImageInput, image2: ImageInput, keepInMemory: bool, s: Script)
    returns (comparison: NodeResult, sent: seq<ChatRequest>, pullsAt: seq<nat>, stops: seq<StopCall>)
    requires s.Valid()
    ensures BothPictures(image1, image2).Err? ==>
      && comparison == Returned("Error converting images: " + ConversionMessage(BothPictures(image1, image2).error))
      && sent == [] && pullsAt == [] && stops == []
    ensures BothPictures(image1, image2).Ok? && BothUrls(BothPictures(image1, image2).value).Err? ==>
      && comparison == Raised(BothUrls(BothPictures(image1, image2).value).error)
      && comparison.exception in {EmptyRefusal, JpegRefusal}
      && sent == [] && pullsAt == [] && stops == []
    ensures BothPictures(image1, image2).Ok? && BothUrls(BothPictures(image1, image2).value).Ok? ==>
      var urls := BothUrls(BothPictures(image1, image2).value).value;
      var run := Call(ComparePolicy, keepInMemory, s);
      && comparison == Returned(Reply(ComparePolicy, run.result))
      && |sent| == run.requests
      && (forall k :: 0 <= k < |sent| ==>
            sent[k] == Payload(modelName, systemPrompt, userPrompt, keepInMemory, urls.0, urls.1))
      && pullsAt == run.pullsAt
      && stops == (if run.result.Answered? && !keepInMemory then [StopCall(ipPort, Some(modelName))] else [])
  {
    match BothPictures(image1, image2) {
      case Err(e) =>
        comparison := Returned("Error converting images: " + ConversionMessage(e));
        sent, pullsAt, stops := [], [], [];
      case Ok(pics) =>
        match BothUrls(pics) {
          case Err(m) =>
            comparison := Raised(m);
            sent, pullsAt, stops := [], [], [];
          case Ok(urls) =>
            var body := Payload(modelName, systemPrompt, userPrompt, keepInMemory, urls.0, urls.1);
            var result;
            result, sent, pullsAt, stops := Send(ComparePolicy, ipPort, modelName, keepInMemory, body, s);
            CallStopsOnlyAfterSuccess(ComparePolicy, keepInMemory, s);
            comparison := Returned(Reply(ComparePolicy, result));
        }
    }
  }

  /** What the node answers is stripped content, and an HTTP failure names only the code. */
  lemma CompareReplies(keepInMemory: bool, s: Script)
    requires s.Valid()
    ensures var r := Call(ComparePolicy, keepInMemory, s);
      && (r.result.Answered? ==> Strip(Reply(ComparePolicy, r.result)) == Reply(ComparePolicy, r.result))
      && (r.result.Failed? && r.result.error.HttpStatus? ==>
            Reply(ComparePolicy, r.result) == "Error: HTTP " + IntToString(s.replies[Attempts - 1].code))
  {
    CallAnswersFirstSuccess(ComparePolicy, keepInMemory, s);
    CallFailureReasons(ComparePolicy, keepInMemory, s);
    var r := Call(ComparePolicy, keepInMemory, s);
    if r.result.Answered? {
      StripIdempotent(s.replies[r.requests - 1].content);
    }
  }
}
