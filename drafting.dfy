/** The drafting screen: claims text, an optional drawing kept as a whole
    data URL, and one adapter call that drafts the description. */
module Drafting {
  import opened Wrappers
  import Text
  import DataUrl
  import FileUtil
  import Gemini

  datatype DraftingState = DraftingState(
    loading: bool,
    claims: string,
    imageData: Option<string>,
    result: string)

  /** The screen as it opens: idle, no result, no drawing, and no claims to
      draft from. */
  function InitialState(): (s: DraftingState)
    ensures !s.loading && s.result == ""
    ensures ImageAttachments(s.imageData).None? && GenerateCall(s).None?
  {
    DraftingState(false, "", None, "")
  }

  /** `handleImageUpload`: keeps the whole data URL the reader produced; a
      failed read is only logged, so the state stays as it was. */
  function HandleImageUpload(s: DraftingState, picked: Option<FileUtil.ReaderOutcome>): (r: DraftingState)
    ensures r == s.(imageData := r.imageData)
    ensures picked.Some? && FileUtil.ReadFileAsDataUrl(picked.value).Success? ==>
              r.imageData == Some(FileUtil.ReadFileAsDataUrl(picked.value).value)
    ensures picked.None? || FileUtil.ReadFileAsDataUrl(picked.value).Failure? ==> r == s
  {
    if picked.None? then s
    else match FileUtil.ReadFileAsDataUrl(picked.value)
      case Success(dataUrl) => s.(imageData := Some(dataUrl))
      case Failure(_) => s
  }

  const ImageMimeType := "image/jpeg"

  /** `base64Image ? [{ data: base64Image, mimeType: 'image/jpeg' }] : undefined`
      with `base64Image = imageData?.split(',')[1]`: one JPEG attachment
      carrying the payload field when it is present and non-empty, none
      otherwise. */
  function ImageAttachments(imageData: Option<string>): (items: Option<seq<Gemini.MediaItem>>)
    ensures items.None? <==> imageData.None? || DataUrl.PayloadField(imageData.value).GetOr("") == ""
    ensures items.Some? ==> |items.value| == 1 && items.value[0].mimeType == ImageMimeType
    ensures items.Some? ==> items.value[0].data == DataUrl.PayloadField(imageData.value)
  {
    if imageData.None? then None
    else
      var base64Image := DataUrl.PayloadField(imageData.value);
      if base64Image.None? || base64Image.value == "" then None
      else Some([Gemini.MediaItem(base64Image, ImageMimeType)])
  }

  /** A drawing of any type is sent with its exact base64 payload, labelled
      as JPEG. */
  lemma ImageAttachmentOfEncoded(mediaType: string, payload: string)
    requires ',' !in mediaType && DataUrl.IsBase64(payload) && payload != ""
    ensures ImageAttachments(Some(DataUrl.Encode(mediaType, payload))) ==
            Some([Gemini.MediaItem(Some(payload), ImageMimeType)])
  {
    DataUrl.PayloadOfEncoded(mediaType, payload);
  }

  const PromptHead := "\n    权利要求书内容：\n    "
  const PromptTail := "\n\n    请结合附图内容生成完整的专利说明书。"

  /** The prompt: the claims verbatim between a fixed head and tail. */
  function GeneratePrompt(claims: string): (prompt: string)
    ensures |prompt| == |PromptHead| + |claims| + |PromptTail|
    ensures prompt[..|PromptHead|] == PromptHead && prompt[|PromptHead| + |claims|..] == PromptTail
  {
    Text.Slot(PromptHead, claims, PromptTail);
    PromptHead + claims + PromptTail
  }

  /** The prompt holds the claims verbatim: they can be read back and
      different claims give different prompts. */
  lemma GeneratePromptHoldsClaims(claims: string, other: string)
    ensures GeneratePrompt(claims)[|PromptHead|..|PromptHead| + |claims|] == claims
    ensures GeneratePrompt(claims) == GeneratePrompt(other) ==> claims == other
  {
    var p := GeneratePrompt(claims);
    assert p[|PromptHead|..|PromptHead| + |claims|] == claims;
    if p == GeneratePrompt(other) {
      Text.Embedded(PromptHead, claims, other, PromptTail);
    }
  }

  const SystemInstruction := @"你是一个资深的专利撰写专家。
    任务：根据用户提供的“权利要求书”和“附图”，撰写完整的“说明书”。
    要求：
    1. 包含：技术领域、背景技术、发明内容、具体实施方式。
    2. 如果用户提供了附图，必须在“具体实施方式”中详细进行图文对照说明（AI 需识别图中零件并赋予逻辑编号）。
    3. 语言严谨，符合专利法实施细则的要求。
    4. 采用 Markdown 格式输出。"

  /** The adapter call `handleGenerate` makes, or None without claims:
      thinking on, search off. */
  function GenerateCall(s: DraftingState): (call: Option<Gemini.TaskCall>)
    ensures call.Some? <==> s.claims != ""
    ensures call.Some? ==> call.value.useThinking && !call.value.useSearch
    ensures call.Some? ==> call.value.systemInstruction == SystemInstruction
    ensures call.Some? ==> call.value.prompt == GeneratePrompt(s.claims)
    ensures call.Some? ==> call.value.mediaItems == ImageAttachments(s.imageData)
  {
    if s.claims == "" then None
    else Some(Gemini.TaskCall(GeneratePrompt(s.claims), SystemInstruction, true, false, ImageAttachments(s.imageData)))
  }

  /** The request: the prompt, then at most one JPEG part; a thinking budget
      and no search tool. */
  lemma GenerateRequest(s: DraftingState)
    requires s.claims != ""
    ensures var req := Gemini.RequestFor(GenerateCall(s).value);
            req.parts[0] == Gemini.TextPart(GeneratePrompt(s.claims)) &&
            1 <= |req.parts| <= 2 &&
            (|req.parts| == 2 ==> req.parts[1].inlineData.mimeType == ImageMimeType) &&
            req.config.thinkingConfig.Some? && req.config.tools.None?
  {
  }

  /** What `handleGenerate` sets before awaiting: loading on, previous result
      cleared. */
  function BeginGenerate(s: DraftingState): (pending: DraftingState)
    ensures pending.loading && pending.result == "" && pending == s.(loading := true, result := "")
  {
    s.(loading := true, result := "")
  }

  /** What `handleGenerate` sets once the adapter settles: loading off, the
      response on success, the result left as it was on failure. */
  function FinishGenerate(s: DraftingState, settled: Result<Gemini.AnalysisResult, Gemini.ServiceError>): (after: DraftingState)
    ensures !after.loading && after == s.(loading := false, result := after.result)
    ensures settled.Success? ==> after.result == settled.value.response
    ensures settled.Failure? ==> after.result == s.result
  {
    s.(loading := false, result := if settled.Success? then settled.value.response else s.result)
  }

  /** After generating loading is off and the inputs are unchanged; the
      result is the adapter's response on success and empty on failure. */
  lemma GenerateSettles(s: DraftingState, outcome: Gemini.CallOutcome)
    ensures var after := FinishGenerate(BeginGenerate(s), Gemini.Settle(outcome));
            !after.loading && after == s.(loading := false, result := after.result) &&
            (outcome.Raised? ==> after.result == "") &&
            (outcome.Replied? ==> after.result == Gemini.ToAnalysisResult(outcome.response).response)
  {
  }

  /** `handleGenerate`: nothing happens without claims; otherwise exactly one
      adapter call. */
  method HandleGenerate(client: Gemini.ModelsClient, s: DraftingState) returns (after: DraftingState)
    modifies client
    ensures s.claims == "" ==> after == s && client.sent == old(client.sent)
    ensures s.claims != "" ==>
              var req := Gemini.RequestFor(GenerateCall(s).value);
              client.sent == old(client.sent) + [req] &&
              after == FinishGenerate(BeginGenerate(s), Gemini.Settle(client.answer(|old(client.sent)|, req)))
  {
    var call := GenerateCall(s);
    if call.None? {
      return s;
    }
    var pending := BeginGenerate(s);
    var settled := Gemini.Run(client, call.value);
    after := FinishGenerate(pending, settled);
  }
}
