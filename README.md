# comfyui_ollama_nodes: a Dafny model of the node logic

The repository adds ComfyUI nodes that forward prompts, and optionally images, to an
Ollama server through its OpenAI-compatible `/v1/chat/completions` endpoint. This
project models the deterministic part of that:

- **The attempt loop** (`Retry`). Every node copies the same loop: three attempts;
  one `pull_model` on a 404 while no pull has succeeded; an error string on the third
  failure; `"Error: exhausted retries"` when the third attempt ended in a pull; and an
  optional `stop_model` after a success. The copies differ only in the wording of
  HTTP errors, whether and how they call `stop_model`, and whether they strip the
  content. Here those differences are one `Policy` value per node, and there is a
  single `Send` method. `Send` is proved against the spec function `Call`, and the
  lemmas about `Call` state the loop's behaviour for every server script.
- **The five nodes** (`NodeBase`, `VisionNode`, `PresetNode`, `CompareNode`,
  `ReasoningNode`). Each builds its request body as a datatype, with its own rules for
  parts lists versus plain strings, `keep_alive` and `max_tokens`. Each runs the loop
  with its own policy and returns its own outputs.
- **Image shape classification** (`Imaging`). `_to_pil` exists in three identical
  copies: ollama_vision_node_base.py:41-62, ollama_run_preset_node.py:17-38 and
  ollama_compare_image_node.py:36-60. It is modelled on the array's shape: squeeze,
  a channel-first transpose decided by the first axis, then the rank and channel
  count pick a mode or an error. JPEG encoding is modelled as far as the mode goes:
  an empty or RGBA picture is refused.
- **The thoughts/response splitter** (`AnswerSplit`). `_parse_answer` is a regex
  search whose backtracking order is written out. It is proved sound and complete
  against a declarative "the pattern matches with these groups" predicate. It is also
  proved to report the one match Python reports: leftmost, greedy whitespace, lazy
  thought group.
- **`pull_model`'s progress stream** (`PullProgress`). A method keeps the two dicts
  and the progress counter. It is proved against a fold over the streamed records.
- Shared pieces: Python's `str.strip` and decimal rendering (`Text`), the request
  datatypes (`Chat`), and `Option`/`Result` (`Wrappers`).

A node whose image cannot be encoded ends in `Raised` rather than `Returned`.

The server is a `Script` value: the outcome of each of the three POSTs, and the value
`pull_model` returns at each call. The methods return what a caller could observe:
- the result string(s);
- the list of request bodies sent;
- the attempts at which the model was pulled;
- the `stop_model` calls made.

Where the code differs from its description, the model follows the code:
- `np.squeeze` removes every axis of length 1, not only leading ones. So a
  `(1, 64, 1, 64)` array becomes a rank-2 greyscale image.
- The attempt that receives a 404 and triggers a pull counts as one of the three
  attempts. A 404 on the third attempt that triggers a pull (no earlier pull
  succeeded) therefore ends in "exhausted retries", even when that pull succeeds.
- A picture with four channels passes `_to_pil`, but PIL's JPEG writer refuses RGBA. It also refuses an empty picture, such as a `(0, 64)` array.
  The vision and preset nodes save outside their `try`, and the comparing node saves
  in `_to_data_url` after its `try`. So such an image makes the node raise before
  any request is sent.

## Model

| member | source | states |
|---|---|---|
| Text.IsSpace | ollama_reasoning_node.py:39-40 | the characters `str.strip` and the regex class `\s` treat as whitespace: tab to carriage return, U+001C to space, U+0085, U+00A0, U+1680, U+2000 to U+200A, U+2028, U+2029, U+202F, U+205F and U+3000 |
| Text.TrimStart | ollama_reasoning_node.py:39-40 | `lstrip()`: no longer than the text, and it does not begin with whitespace |
| Text.TrimEnd | ollama_reasoning_node.py:39-40 | `rstrip()`: no longer than the text, and it does not end with whitespace |
| Text.Strip | ollama_reasoning_node.py:39-40 | `strip()`: no longer than the text, and it neither begins nor ends with whitespace |
| Text.StripSlice | ollama_reasoning_node.py:39-40 | the stripped text is one slice of the original |
| Text.TrimStartSpec | ollama_reasoning_node.py:39-40 | `lstrip()` keeps the suffix after a whitespace-only prefix, and that suffix does not begin with whitespace |
| Text.TrimEndSpec | ollama_reasoning_node.py:39-40 | `rstrip()` keeps the prefix before a whitespace-only suffix, and that prefix does not end with whitespace |
| Text.StripCharacterised | ollama_reasoning_node.py:39-40 | `strip()` returns the slice left after cutting whitespace-only runs from both ends, and the result neither begins nor ends with whitespace |
| Text.StripFixes | ollama_reasoning_node.py:39-40 | a string with no leading or trailing whitespace is unchanged by `strip()` |
| Text.StripIdempotent | ollama_compare_image_node.py:110 | stripping twice gives the same as stripping once |
| Text.NatToString | ollama_node_base.py:64 | a status code is rendered with decimal digits only and no leading zero |
| Text.NatToStringRoundTrip | ollama_node_base.py:64 | reading the rendered digits back gives the code |
| Text.IntToString | ollama_node_base.py:64 | `str(code)` is never empty and begins with a minus sign exactly for a negative code |
| Text.IntToStringRoundTrip | ollama_node_base.py:64 | `str(code)` has a minus sign exactly for a negative code, digits after it, and they read back to the code's magnitude |
| Imaging.Channels | ollama_vision_node_base.py:54-55 | a mode has 1, 3 or 4 bands |
| Imaging.ModeFor | ollama_vision_node_base.py:54-55 | the dictionary lookup finds a mode exactly for 1, 3 or 4 channels, and the mode found has that many bands |
| Imaging.Squeeze | ollama_vision_node_base.py:48 | the squeezed shape has no axis of length 1, and a length other than 1 occurs in it exactly when it occurs in the input |
| Imaging.SqueezeAppend | ollama_vision_node_base.py:48 | squeezing works axis by axis: the kept axes stay in their order, each as often as in the input |
| Imaging.SqueezeSingle | ollama_vision_node_base.py:48 | a single axis is dropped exactly when its length is 1 |
| Imaging.SqueezeKeepsSize | ollama_vision_node_base.py:48 | squeezing keeps the number of elements |
| Imaging.ChannelFirst | ollama_vision_node_base.py:51 | the transpose test: rank 3 with a first axis of 1, 3 or 4 |
| Imaging.ChannelLast | ollama_vision_node_base.py:51-52 | a channel-first shape `(c, h, w)` becomes `(h, w, c)`, the (1, 2, 0) transpose; any other shape is kept |
| Imaging.ToPicture | ollama_vision_node_base.py:41-43 | a PIL image comes back unchanged |
| Imaging.ToPictureClassifies | ollama_vision_node_base.py:48-62 | after squeezing: rank 2 gives L with height and width the two axes; rank 3 succeeds exactly when the first or last axis is 3 or 4; a first axis of 3 or 4 gives that many channels (RGB or RGBA) with height and width the second and third axes; otherwise the third axis gives the channels and the first two height and width; a rejected rank 3 reports the last axis as the unsupported channel count; any other rank reports the squeezed shape |
| Imaging.TransposeDependsOnFirstAxis | ollama_vision_node_base.py:51-52 | whether a squeezed rank-3 array is transposed depends only on its first axis, and happens exactly when that axis is 3 or 4 (a 1 cannot survive the squeeze) |
| Imaging.ToPictureKeepsSize | ollama_vision_node_base.py:48-62 | a successful conversion has height × width × channels equal to the input's element count |
| Imaging.ShapeText | ollama_vision_node_base.py:61 | `str(arr.shape)`: `()` for no axis, `(n,)` for one, and always in parentheses |
| Imaging.JoinedAxes | ollama_vision_node_base.py:61 | the joined axes of a non-empty shape end in a digit |
| Imaging.ShapeTextExamples | ollama_vision_node_base.py:61 | `()` and `(5,)` are written as Python writes them |
| Imaging.ShapeTextTwoAxes | ollama_vision_node_base.py:61 | `(2, 3)` is written with ", " between the axes and no trailing comma |
| Imaging.NatToStringInjective | ollama_vision_node_base.py:57 | different channel counts are written differently |
| Imaging.JoinedAxesInjective | ollama_vision_node_base.py:61 | different shapes give different joined axes |
| Imaging.ShapeTextInjective | ollama_vision_node_base.py:61 | different shapes give different tuple texts, so the message names the shape |
| Imaging.ConversionMessage | ollama_vision_node_base.py:57-61 | the message begins "Unsupported channels: " or "Cannot handle shape: " according to the error |
| Imaging.ConversionMessageInjective | ollama_vision_node_base.py:57-61 | different conversion errors give different messages |
| Imaging.Encodable | ollama_vision_node_base.py:73-74 | what PIL's JPEG writer accepts: at least one row and one column, and a grey or RGB mode |
| Imaging.EncodeJpeg | ollama_vision_node_base.py:73-74 | the JPEG writer accepts a picture exactly when it is `Encodable`, and encodes that picture; an empty picture raises "cannot write empty image as JPEG" before the mode is looked at, and a non-empty RGBA picture raises "cannot write mode RGBA as JPEG" |
| Imaging.UrlFor | ollama_vision_node_base.py:65-75 | no image gives no URL; `_to_pil`'s error is reported as a conversion failure; a converted picture gets a URL exactly when it is `Encodable`, a URL of that picture, and is otherwise refused with the JPEG writer's message, one of its two refusals |
| Imaging.ArrayEncodable | ollama_vision_node_base.py:48-75 | a converted array is refused by the JPEG writer exactly when its channel axis (the first if it is 3 or 4, else the last) holds 4 values, or when its height or width (the other axes, or both axes for rank 2) is 0 |
| Imaging.EncodingExamples | ollama_vision_node_base.py:48-74 | a `(0, 64)` array is refused as an empty picture; a `(3, 2, 5)` array is sent as a 2 × 5 RGB picture |
| Chat.MessagesReadBack | ollama_vision_node_base.py:78-92 | both message forms are a system then a user message, and the system prompt, user prompt and images read back unchanged |
| Chat.KeepAlive | ollama_vision_node_base.py:98 | `keep_alive` is -1 exactly when the model is kept in memory, and 0 exactly when it is not |
| Chat.PlainMessages | ollama_node_base.py:35-39 | two plain messages, system then user; `MessagesReadBack` reads both prompts back and finds no image |
| Chat.PartsMessages | ollama_vision_node_base.py:79-92 | the system text as one part, then the user text and one image part per URL; `MessagesReadBack` reads both prompts and the URLs, in order, back |
| Retry.Extract | ollama_compare_image_node.py:110 | the content as a node keeps it: unchanged, or stripped for the comparing node; `ExtractKeeps` states what is kept |
| Retry.ExtractKeeps | ollama_compare_image_node.py:110 | a node that does not strip keeps the content as received; the comparing node keeps a slice of it with no whitespace at either end; extracting twice changes nothing |
| Retry.ErrorText | ollama_node_base.py:63-78 | every error string begins with "Error: " |
| Retry.Reply | ollama_node_base.py:61-78 | a failed call's string begins with "Error: " |
| Retry.Send | ollama_node_base.py:44-78 | the loop's result, pulls and unload call are those of the spec function `Call`, and it sends the same body once per attempt used |
| Retry.Play | ollama_node_base.py:44-78 | the loop from a given attempt on; `PlayRequests`, `PlayStops`, `PlayAnswers`, `PlayFirstSuccess`, `PlayPulls` and `PlayFailure` state what it does |
| Retry.Call | ollama_node_base.py:44-78 | a whole call sends one to three POSTs, all three when it fails, and unloads the model exactly after an answer when the node unloads and `keep_in_memory` is false |
| Retry.PlayRequests | ollama_node_base.py:45-51 | from any attempt on, one to three POSTs in all, none of the earlier attempts repeated; a failure uses all three |
| Retry.PlayStops | ollama_vision_node_base.py:112-117 | from any attempt on, the unload call happens exactly after a success when the node unloads and the model is not kept |
| Retry.PlayAnswers | ollama_node_base.py:51-61 | from any attempt on, the loop answers exactly when a remaining reply is a success |
| Retry.PlayFirstSuccess | ollama_node_base.py:51-61 | an answer comes from the last POST sent, which is a success, carries that reply's extracted content, and no earlier remaining reply was a success |
| Retry.PlayPulls | ollama_node_base.py:63-69 | from any consistent loop state, the pulls end up well placed, none missed, only failed pulls repeated, and no more than the 404s |
| Retry.PlayFailure | ollama_node_base.py:70-76 | a failure's status or message is the third reply's |
| Retry.CallAnswersFirstSuccess | ollama_node_base.py:45-61 | one to three POSTs; the call answers exactly when some reply is a success, with the first success's content, and sends nothing after it; a failure uses all three attempts |
| Retry.CallPullDiscipline | ollama_node_base.py:66-69 | pulls happen only on a 404 while no pull has succeeded, on every such 404, never after a successful pull, and at most once per 404 |
| Retry.CallFailureReasons | ollama_node_base.py:63-78 | "exhausted retries" exactly when the third attempt was a 404 that triggered a pull; otherwise the error is the third reply's status or exception |
| Retry.CallStopsOnlyAfterSuccess | ollama_vision_node_base.py:112-117 | `stop_model` runs once exactly when the call answered, the node unloads and `keep_in_memory` is false |
| Retry.NotFoundThenSuccess | ollama_node_base.py:63-69 | a 404 then a success: two POSTs, one pull at attempt 1, the second reply's content |
| Retry.ServerErrorThrice | ollama_node_base.py:70-71 | three HTTP 500 replies: three POSTs, no pull, the third reply's status |
| NodeBase.Payload | ollama_node_base.py:35-42 | plain system and user messages carrying the prompts, with neither `keep_alive` nor `max_tokens` |
| NodeBase.CallOllama | ollama_node_base.py:30-78 | the response is the loop's result (content or error text); every POST carries the same body; no unload call |
| VisionNode.Messages | ollama_vision_node_base.py:78-92 | the parts form with the one image when there is one, the plain form otherwise; `VisionNode.Payload` reads the prompts and the image back out |
| VisionNode.Payload | ollama_vision_node_base.py:78-99 | parts lists with the image as the only attachment when there is an image, plain strings otherwise; `max_tokens` always present; `keep_alive` -1 or 0 from the flag |
| VisionNode.CallOllama | ollama_vision_node_base.py:64-131 | a failed conversion returns "Error converting image: …" and sends nothing; a picture the JPEG writer refuses (empty, or RGBA) raises the writer's error and sends nothing; otherwise it returns the loop's result, with the same body on every POST, and one unload call naming the model exactly after a success with `keep_in_memory` false |
| PresetNode.Payload | ollama_run_preset_node.py:101-130 | with an image: parts lists and `max_tokens` 1024; without one: plain strings and no `max_tokens`; `keep_alive` from the flag in both |
| PresetNode.Run | ollama_run_preset_node.py:87-159 | a failed conversion returns "Error converting image: …" and sends nothing; a picture the JPEG writer refuses (empty, or RGBA) raises the writer's error and sends nothing; otherwise it returns the loop's result, the same body on every POST, and one unload call naming only the endpoint exactly after a success with `keep_in_memory` false |
| CompareNode.Payload | ollama_compare_image_node.py:84-98 | the system text as one part; the user text then the first and the second image, in that order; no `max_tokens`; `keep_alive` from the flag |
| CompareNode.BothPictures | ollama_compare_image_node.py:72-77 | succeeds exactly when both conversions succeed; the first image's error wins |
| CompareNode.BothUrls | ollama_compare_image_node.py:62-68 | both pictures are encoded exactly when both are `Encodable`, each URL carrying its own picture in order; otherwise the JPEG writer's error for the first picture it refuses |
| CompareNode.Compare | ollama_compare_image_node.py:70-127 | a failed conversion of either image returns "Error converting images: …" and sends nothing; a picture the JPEG writer refuses (empty, or RGBA) raises the writer's error and sends nothing; otherwise it returns the loop's result, the same body on every POST, and one unload call naming the model exactly after a success with `keep_in_memory` false |
| CompareNode.CompareReplies | ollama_compare_image_node.py:110-122 | an answer is already stripped; an HTTP failure reads "Error: HTTP {code}" with the third reply's code and no reason |
| AnswerSplit.FoldMatches | ollama_reasoning_node.py:35 | the `(?i)` flag: a lower-case pattern letter matches itself, its upper case, and for `i` and `s` the extra characters Unicode case folding gives them |
| AnswerSplit.MatchesWith | ollama_reasoning_node.py:35 | a declarative match: a thought keyword and separator at the start, whitespace, the thought group, then `\n`, an answer keyword, separator and whitespace before the answer group |
| AnswerSplit.IsMatch | ollama_reasoning_node.py:35 | `MatchesWith` for the node's keywords |
| AnswerSplit.SpaceEnd | ollama_reasoning_node.py:35 | greedy `\s*` stops at the first non-whitespace character |
| AnswerSplit.SepEnd | ollama_reasoning_node.py:35 | an end found for `\s*[:\-]` is whitespace then one separator character |
| AnswerSplit.SepEndComplete | ollama_reasoning_node.py:35 | wherever `\s*[:\-]` can match, it is found, ending at that (only possible) place |
| AnswerSplit.AnswerWordFrom | ollama_reasoning_node.py:35 | a match of the keyword alternation and separator is one of the listed keywords followed by a separator |
| AnswerSplit.AnswerWordFromComplete | ollama_reasoning_node.py:35 | whenever one of the alternatives matches, the alternation matches |
| AnswerSplit.AnswerAt | ollama_reasoning_node.py:35 | a found `\n` answer marker satisfies the declarative answer head and ends inside the text |
| AnswerSplit.AnswerAtComplete | ollama_reasoning_node.py:35 | wherever the declarative answer head holds, the answer marker is found |
| AnswerSplit.FirstAnswerHit | ollama_reasoning_node.py:35 | the lazy group ends where the answer marker matches |
| AnswerSplit.FirstAnswerIsFirst | ollama_reasoning_node.py:35 | no answer marker matches before the end of the lazy group |
| AnswerSplit.FirstAnswerFinds | ollama_reasoning_node.py:35 | if the marker matches anywhere at or after the group's start, the lazy group is found and ends no later |
| AnswerSplit.FirstAnswer | ollama_reasoning_node.py:35 | the lazy `(.*?)`: its end and the answer group's start lie after the start and within the text |
| AnswerSplit.GroupFrom | ollama_reasoning_node.py:35 | the greedy `\s*` giving back whitespace: a thought group starting between the separator's end and the whitespace's end, with ordered groups |
| AnswerSplit.ThoughtFrom | ollama_reasoning_node.py:35 | the thought alternation at one place: a match starting there, with ordered groups |
| AnswerSplit.SearchFrom | ollama_reasoning_node.py:37 | `pattern.search`: a match starting at or after the given place, with ordered groups inside the text |
| AnswerSplit.SearchFindsLeftmost | ollama_reasoning_node.py:37 | the search's result is a match, there is one whenever the pattern matches anywhere, and it starts no later than any match |
| AnswerSplit.SearchFromLazy | ollama_reasoning_node.py:35 | the thought group found contains no answer marker |
| AnswerSplit.Chosen | ollama_reasoning_node.py:35-37 | the match Python reports: leftmost; the latest thought start at that place; lazy thought group; the latest answer start for that thought end |
| AnswerSplit.ChosenUnique | ollama_reasoning_node.py:35-37 | leftmost, greedy thought whitespace, lazy thought group and greedy answer whitespace together leave at most one match |
| AnswerSplit.ThoughtKeywordUnique | ollama_reasoning_node.py:35 | at most one of "thoughts", "thought" and "analysis" followed by a separator matches at a place |
| AnswerSplit.AnswerKeywordUnique | ollama_reasoning_node.py:35 | at most one of "response", "answer" and "final" matches at a place |
| AnswerSplit.GroupFromGreedy | ollama_reasoning_node.py:35 | whitespace give-back settles on the latest thought start from which an answer marker is reachable |
| AnswerSplit.AnswerAtGreedy | ollama_reasoning_node.py:35 | the answer group starts after all the whitespace following the answer separator |
| AnswerSplit.ThoughtStartGreedy | ollama_reasoning_node.py:35 | no match at the search's start begins its thought group later |
| AnswerSplit.AnswerStartGreedy | ollama_reasoning_node.py:35 | no match ending its thought group at the same place begins its answer group later |
| AnswerSplit.SearchChosen | ollama_reasoning_node.py:35-37 | the search's result is the match Python's engine reports |
| AnswerSplit.ParseAnswer | ollama_reasoning_node.py:31-41 | `_parse_answer`: the two parts together are no longer than the text; `ParseAnswerSpec` says which parts they are |
| AnswerSplit.ParseAnswerUnmatched | ollama_reasoning_node.py:31-41 | no match gives `("", text)` |
| AnswerSplit.ParseAnswerMatched | ollama_reasoning_node.py:37-40 | on a match, the result is the stripped groups of the match Python reports: leftmost, greedy thought whitespace, lazy thought group, greedy answer whitespace |
| AnswerSplit.ParseAnswerSpec | ollama_reasoning_node.py:31-41 | no match gives `("", text)`; otherwise the stripped groups of the one match meeting `Chosen` |
| AnswerSplit.NoLineBreakNoSplit | ollama_reasoning_node.py:35 | a text without a line break gives `("", text)` |
| AnswerSplit.ParseAnswerStripped | ollama_reasoning_node.py:38-40 | on a match both parts are stripped, and the response is the stripped suffix of the text |
| AnswerSplit.SampleSplit | ollama_reasoning_node.py:31-41 | "Thoughts: foo\nResponse: bar" splits into "foo" and "bar" |
| ReasoningNode.Payload | ollama_reasoning_node.py:46-53 | plain system and user messages carrying the prompts, `keep_alive` from the flag, no `max_tokens` |
| ReasoningNode.Outputs | ollama_reasoning_node.py:70-84 | a success gives the split content; every failure gives empty thoughts and an "Error: " string |
| ReasoningNode.Run | ollama_reasoning_node.py:43-84 | the pair is the loop's result passed through `Outputs`; the same body on every POST; one unload call naming the model exactly after a success with `keep_in_memory` false |
| ReasoningNode.UnsplitReply | ollama_reasoning_node.py:65-70 | a reply without a line break is returned whole as the response, with empty thoughts |
| PullProgress.DigestOf | utils.py:51-52 | a record's digest counts exactly when it is present and non-empty |
| PullProgress.MapSum | utils.py:58 | `sum(d.values())`; `MapSumRemove` shows any key may be taken first |
| PullProgress.Clamped | utils.py:59 | each digest with a total contributes `min(completed.get(d, 0), totals[d])`; `ClampedSumAtMostTotal` bounds the sum |
| PullProgress.MapSumRemove | utils.py:58 | the sum of a dict's values does not depend on the order of its keys |
| PullProgress.ClampedSumAtMostTotal | utils.py:58-59 | the clamped completed sum never exceeds the total sum |
| PullProgress.Percent | utils.py:60-61 | the percentage truncated toward zero: for a non-negative sum the largest `r` with `r·total ≤ sum·100`, for a negative one its mirror image; for 0 ≤ completed ≤ total it lies in 0..100 and is the floor of completed·100/total |
| PullProgress.Track | utils.py:51-63 | one record updates the dicts and the counter exactly as `Absorb` says |
| PullProgress.Absorb | utils.py:51-63 | a record without a digest changes nothing; a record with one overwrites only that digest's present fields; the counter becomes the larger of its old value and the new percentage when the total sum is positive, and otherwise stays; it never decreases and stays within 100 |
| PullProgress.Replay | utils.py:38-63 | the dicts and the counter after a run of non-final records; `ReplayMonotone` and `GarbledLinesIgnored` state what it keeps |
| PullProgress.ReplayMonotone | utils.py:62-63 | over any run of records the counter never decreases and stays within 0..100 |
| PullProgress.GarbledLinesIgnored | utils.py:39-42 | lines that fail to parse leave the dicts and the counter as they were |
| PullProgress.Sums | utils.py:58-59 | the loop computes the total sum and the clamped completed sum, and the latter is at most the former |
| PullProgress.PullModel | utils.py:28-72 | a refused connection or a non-200 status: false, nothing read; true exactly when a success record arrives before any failing line; stops at the first one and then shows 100; otherwise the state is the fold of the records read; the counter stays within 0..100 |
| PullProgress.ExampleTwoLayers | utils.py:51-63 | two layers of 100 bytes each, half of the first, then all of the second, then all of the first: the counter shows 50, then 75, then 100 |

## Left out

- HTTP through urllib, JSON encoding and decoding, and the `/v1/chat/completions` URL are not modelled. An exchange is a scripted `Outcome`. A malformed reply or a missing `choices[0].message.content` is an `Exc` outcome.
- PIL, numpy and base64 are not modelled. A data URL records the picture it encodes. `thumbnail((512, 512))`, JPEG quality 75 and the base64 body are not modelled. Of the JPEG writer, only its two refusals are modelled: an empty picture, and an RGBA one.
- UrlFor: the vision and preset nodes call `pil.thumbnail` on the PIL image the caller passed in, which shrinks the caller's image in place (ollama_vision_node_base.py:72, ollama_run_preset_node.py:107). Pictures are values here, so that change to the caller's object is not modelled. The comparing node copies the picture first (ollama_compare_image_node.py:64), so it does not have this effect.
- EncodeJpeg: the writer sees the picture as `_to_pil` left it. `thumbnail((512, 512))` returns early for a picture that fits in 512 × 512, such as any empty picture whose other side is at most 512. For an empty picture whose other side is larger, what `thumbnail` does (a division by the zero height, or a resize from the zero width) is not modelled. The model refuses it as empty.
- Imaging.ToPicture: a PIL image is L, RGB or RGBA here. PIL images in other modes are not modelled. Some of them, such as P or LA, would also be refused by the JPEG writer.
- The float pixel scaling `(arr * 255).clip(0, 255).astype(np.uint8)` is left out. Only the shape is modelled.
- `Image.fromarray` failing on a shape the classifier accepts is not modelled.
- PullProgress.Percent: computed on integers, not through the float in `int(completed_sum * 100 / total_sum)`. Rounding of very large sums may differ.
- PullProgress.PullModel:
  - a JSON value of the wrong type, or an exception while reading, is one `Raising` line;
  - the dict updates that line made before raising are not modelled;
  - tqdm rendering and all logging are left out.
- Retry.Send: a reply's content is a string. A `null` or numeric content makes `len(...)` raise before `stop_model`, which is exactly an `Exc` outcome. A list or object content is not modelled. The base, vision and preset nodes would return it as it is, and the comparing node's `.strip()` would raise, again before `stop_model`.
- ReasoningNode.Run: with a list or object content, `stop_model` runs and then `_parse_answer` raises, so the model is unloaded and the attempt retried (ollama_reasoning_node.py:66-70). This is not modelled, since content is a string.
- Retry.CallStopsOnlyAfterSuccess: `stop_model` is assumed to return. It runs inside the `try`, so an exception from it would turn a success into a retried attempt. That is not modelled.
- `stop_model` is not defined in utils.py, so its body is not part of this model. Its calls are recorded, and its result is ignored, as the nodes ignore it.
- `pull_model` is the `pulls` column of the script when a node calls it. Its own behaviour is `PullProgress.PullModel`.
- Reading the preset file, the presets directory, the model-list JSON, `INPUT_TYPES`, node registration and UI metadata are left out. PresetNode.Run takes the preset's text, empty when the file is missing, as an input.
- VisionNode.CallOllama: `max_tokens` is a parameter. Its default of 1024 (`Chat.DefaultMaxTokens`) is the caller's.
- NodeBase.CallOllama: there is no `keep_in_memory` input. The loop runs with a policy that never unloads.
