/** The chat-completions request every node posts to `/v1/chat/completions`,
    as values rather than JSON text. */
module Chat {
  import opened Wrappers
  import opened Imaging

  datatype Role = System | User

  /** `{"type": "text", "text": …}` or `{"type": "image_url", "image_url": {"url": …}}`. */
  datatype Part = TextPart(text: string) | ImagePart(url: DataUrl)

  /** A message's `content`: a plain string, or a list of parts. */
  datatype Content = Plain(text: string) | Parts(parts: seq<Part>)

  datatype Message = Message(role: Role, content: Content)

  /** The JSON body; an absent key is `None`. */
  datatype ChatRequest = ChatRequest(
    model: string,
    messages: seq<Message>,
    keepAlive: Option<int>,
    maxTokens: Option<int>)

  /** How a node call ends: the output it returns, or an exception it lets escape
      (ComfyUI then gets no output at all). */
  datatype NodeResult = Returned(text: string) | Raised(exception: string)

  /** The `max_tokens` the vision node defaults to and the preset node fixes. */
  const DefaultMaxTokens: int := 1024

  /** `-1 if keep_in_memory else 0`. */
  function KeepAlive(keepInMemory: bool): (r: int)
    ensures r == -1 <==> keepInMemory
    ensures r == 0 <==> !keepInMemory
  {
    if keepInMemory then -1 else 0
  }

  /** A parts list as the nodes build it: one text part, then image parts only. */
  predicate WellFormedContent(c: Content) {
    c.Parts? ==>
      |c.parts| >= 1 && c.parts[0].TextPart?
      && forall k :: 1 <= k < |c.parts| ==> c.parts[k].ImagePart?
  }

  /** A system message then a user message; a system parts list holds text only. */
  predicate WellFormed(r: ChatRequest) {
    && |r.messages| == 2
    && r.messages[0].role == System && r.messages[1].role == User
    && WellFormedContent(r.messages[0].content) && WellFormedContent(r.messages[1].content)
    && (r.messages[0].content.Parts? ==> |r.messages[0].content.parts| == 1)
  }

  function TextOf(c: Content): (t: string)
    requires WellFormedContent(c)
  {
    match c
    case Plain(t) => t
    case Parts(ps) => ps[0].text
  }

  function ImagesOf(c: Content): (urls: seq<DataUrl>)
    requires WellFormedContent(c)
  {
    match c
    case Plain(_) => []
    case Parts(ps) => seq(|ps| - 1, k requires 0 <= k < |ps| - 1 => ps[k + 1].url)
  }

  /** The system prompt a server reads back from the request. */
  function SystemPrompt(r: ChatRequest): (s: string)
    requires WellFormed(r)
  {
    TextOf(r.messages[0].content)
  }

  /** The user prompt a server reads back from the request. */
  function UserPrompt(r: ChatRequest): (s: string)
    requires WellFormed(r)
  {
    TextOf(r.messages[1].content)
  }

  /** The images attached to the user message, in order. */
  function Attachments(r: ChatRequest): (urls: seq<DataUrl>)
    requires WellFormed(r)
  {
    ImagesOf(r.messages[1].content)
  }

  /** Whether both messages use the parts-list form. */
  predicate Multimodal(r: ChatRequest)
    requires WellFormed(r)
  {
    r.messages[0].content.Parts? && r.messages[1].content.Parts?
  }

  /** Whether both messages are plain strings. */
  predicate PlainText(r: ChatRequest)
    requires WellFormed(r)
  {
    r.messages[0].content.Plain? && r.messages[1].content.Plain?
  }

  /** `[{"role": "system", "content": system}, {"role": "user", "content": user}]`. */
  function PlainMessages(system: string, user: string): (ms: seq<Message>) {
    [Message(System, Plain(system)), Message(User, Plain(user))]
  }

  /** The multimodal form: the system text as a single part, the user text followed
      by one image part per data URL. */
  function PartsMessages(system: string, user: string, urls: seq<DataUrl>): (ms: seq<Message>) {
    [Message(System, Parts([TextPart(system)])),
     Message(User, Parts([TextPart(user)] + seq(|urls|, k requires 0 <= k < |urls| => ImagePart(urls[k]))))]
  }

  /** Both message forms carry the prompts and images back out unchanged. */
  lemma MessagesReadBack(model: string, system: string, user: string, urls: seq<DataUrl>, keep: Option<int>, max: Option<int>)
    ensures var r := ChatRequest(model, PlainMessages(system, user), keep, max);
      WellFormed(r) && PlainText(r) && SystemPrompt(r) == system && UserPrompt(r) == user && Attachments(r) == []
    ensures var r := ChatRequest(model, PartsMessages(system, user, urls), keep, max);
      WellFormed(r) && Multimodal(r) && SystemPrompt(r) == system && UserPrompt(r) == user && Attachments(r) == urls
  {
    var r := ChatRequest(model, PartsMessages(system, user, urls), keep, max);
    assert WellFormed(r);
    assert |Attachments(r)| == |urls|;
  }
}
