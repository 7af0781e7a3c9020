/** The technical-understanding screen: free text, an optional uploaded file,
    and one adapter call that analyses them. */
module Understander {
  import opened Wrappers
  import Text
  import Gemini
  import opened ViewInputs

  datatype UnderstanderState = UnderstanderState(
    loading: bool,
    content: string,
    mediaData: Option<MediaFile>,
    analysis: string)

  /** The screen as it opens: idle, no analysis, and nothing to analyse. */
  function InitialState(): (s: UnderstanderState)
    ensures !s.loading && s.analysis == ""
    ensures !ReadyToAnalyze(s) && AnalyzeCall(s).None?
  {
    UnderstanderState(false, "", None, "")
  }

  /** `handleFileUpload`: stores the picked file, replacing any earlier one;
      no pick, or a reader result that is not a string, changes nothing. */
  function HandleFileUpload(s: UnderstanderState, picked: Option<PickedFile>): (r: UnderstanderState)
    ensures r == s.(mediaData := r.mediaData)
    ensures picked.None? || !picked.value.result.TextResult? ==> r == s
    ensures picked.Some? && picked.value.result.TextResult? ==> r.mediaData == MediaFromUpload(picked.value)
  {
    if picked.None? then s
    else match MediaFromUpload(picked.value)
      case None => s
      case Some(media) => s.(mediaData := Some(media))
  }

  /** There is text or a file to analyse: the prompt differs from the one
      an empty text gives, or a file is attached. */
  function ReadyToAnalyze(s: UnderstanderState): (ready: bool)
    ensures ready <==> AnalyzePrompt(s.content) != AnalyzePrompt("") || s.mediaData.Some?
  {
    s.content != "" || s.mediaData.Some?
  }

  const PromptHead := "\n    输入文本内容：\n    "
  const PromptTail := "\n\n    请结合上传的文件（如有）进行全方位的技术理解与风险评估。"

  /** The prompt: the content verbatim between a fixed head and tail. */
  function AnalyzePrompt(content: string): (prompt: string)
    ensures |prompt| == |PromptHead| + |content| + |PromptTail|
    ensures prompt[..|PromptHead|] == PromptHead && prompt[|PromptHead| + |content|..] == PromptTail
  {
    Text.Slot(PromptHead, content, PromptTail);
    PromptHead + content + PromptTail
  }

  /** The prompt holds the content verbatim between the fixed head and tail,
      so the content can be read back and different contents give different
      prompts. */
  lemma AnalyzePromptHoldsContent(content: string, other: string)
    ensures AnalyzePrompt(content)[|PromptHead|..|PromptHead| + |content|] == content
    ensures AnalyzePrompt(content) == AnalyzePrompt(other) ==> content == other
  {
    var p := AnalyzePrompt(content);
    assert p[|PromptHead|..|PromptHead| + |content|] == content;
    if p == AnalyzePrompt(other) {
      Text.Embedded(PromptHead, content, other, PromptTail);
    }
  }

  const SystemInstruction := @"你是一个顶尖的技术情报分析专家和专利资深审查员。
    任务：对用户提供的技术交底书或专利文档（文本或文件）进行“深度透视”。
    要求：
    1. 提炼技术核心点：用一句话精准描述其本质。
    2. 梳理创新链路：从痛点到手段，再到效果，构建逻辑闭环。
    3. 挖掘潜在缺陷：从侵权风险、可专利性、被绕过的可能性三个维度进行批判。
    4. 如果提供了文件（如PDF），请深度解析其中的图表含义和公式逻辑。
    5. 采用极简、专业且具视觉化感的 Markdown 格式。"

  /** The adapter call `handleAnalyze` makes, or None when there is neither
      text nor a file: one attachment exactly when a file is loaded. */
  function AnalyzeCall(s: UnderstanderState): (call: Option<Gemini.TaskCall>)
    ensures call.Some? <==> ReadyToAnalyze(s)
    ensures call.Some? ==> call.value.useThinking && call.value.useSearch
    ensures call.Some? ==> call.value.systemInstruction == SystemInstruction
    ensures call.Some? ==> call.value.prompt == AnalyzePrompt(s.content)
    ensures call.Some? ==> (call.value.mediaItems.None? <==> s.mediaData.None?)
    ensures call.Some? && s.mediaData.Some? ==> call.value.mediaItems == Some([ToMediaItem(s.mediaData.value)])
  {
    if !ReadyToAnalyze(s) then None
    else
      Some(Gemini.TaskCall(AnalyzePrompt(s.content), SystemInstruction, true, true,
                           if s.mediaData.Some? then Some([ToMediaItem(s.mediaData.value)]) else None))
  }

  /** The request: the prompt, plus the loaded file's part when there is one. */
  lemma AnalyzeRequest(s: UnderstanderState)
    requires ReadyToAnalyze(s)
    ensures var req := Gemini.RequestFor(AnalyzeCall(s).value);
            req.parts[0] == Gemini.TextPart(AnalyzePrompt(s.content)) &&
            |req.parts| == (if s.mediaData.Some? then 2 else 1) &&
            (s.mediaData.Some? ==> req.parts[1] == Gemini.InlineDataPart(ToMediaItem(s.mediaData.value))) &&
            req.config.thinkingConfig.Some? && req.config.tools.Some?
  {
  }

  /** What `handleAnalyze` sets before awaiting: loading on, the previous
      analysis still shown. */
  function BeginAnalyze(s: UnderstanderState): (pending: UnderstanderState)
    ensures pending.loading && pending == s.(loading := true)
  {
    s.(loading := true)
  }

  /** What `handleAnalyze` sets once the adapter settles: loading off, the
      response on success, the previous analysis kept on failure. */
  function FinishAnalyze(s: UnderstanderState, settled: Result<Gemini.AnalysisResult, Gemini.ServiceError>): (after: UnderstanderState)
    ensures !after.loading && after == s.(loading := false, analysis := after.analysis)
    ensures settled.Success? ==> after.analysis == settled.value.response
    ensures settled.Failure? ==> after.analysis == s.analysis
  {
    s.(loading := false, analysis := if settled.Success? then settled.value.response else s.analysis)
  }

  /** After an analysis loading is off and the inputs are unchanged; the
      analysis is the adapter's response on success and the previous one on
      failure. */
  lemma AnalyzeSettles(s: UnderstanderState, outcome: Gemini.CallOutcome)
    ensures var after := FinishAnalyze(BeginAnalyze(s), Gemini.Settle(outcome));
            !after.loading && after == s.(loading := false, analysis := after.analysis) &&
            (outcome.Raised? ==> after.analysis == s.analysis) &&
            (outcome.Replied? ==> after.analysis == Gemini.ToAnalysisResult(outcome.response).response)
  {
  }

  /** `handleAnalyze`: nothing happens without content; otherwise exactly one
      adapter call. */
  method HandleAnalyze(client: Gemini.ModelsClient, s: UnderstanderState) returns (after: UnderstanderState)
    modifies client
    ensures !ReadyToAnalyze(s) ==> after == s && client.sent == old(client.sent)
    ensures ReadyToAnalyze(s) ==>
              var req := Gemini.RequestFor(AnalyzeCall(s).value);
              client.sent == old(client.sent) + [req] &&
              after == FinishAnalyze(BeginAnalyze(s), Gemini.Settle(client.answer(|old(client.sent)|, req)))
  {
    var call := AnalyzeCall(s);
    if call.None? {
      return s;
    }
    var pending := BeginAnalyze(s);
    var settled := Gemini.Run(client, call.value);
    after := FinishAnalyze(pending, settled);
  }
}
