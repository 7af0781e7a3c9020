/** The comparison screen: two documents, A and B, each given as text, as an
    uploaded file or both, compared by one adapter call. */
module DiffExpert {
  import opened Wrappers
  import Text
  import Gemini
  import opened ViewInputs

  datatype Side = A | B

  datatype DiffState = DiffState(
    loading: bool,
    doc1Text: string,
    doc2Text: string,
    doc1File: Option<MediaFile>,
    doc2File: Option<MediaFile>,
    diffResult: string)

  /** The screen as it opens: idle, no result, and neither side ready, so
      nothing is compared. */
  function InitialState(): (s: DiffState)
    ensures !s.loading && s.diffResult == ""
    ensures !ReadyToCompare(s) && CompareCall(s).None?
  {
    DiffState(false, "", "", None, None, "")
  }

  /** `handleFileUpload(side, e)`: a stored file goes to the chosen side
      only; no pick, or a reader result that is not a string, changes
      nothing. */
  function HandleFileUpload(s: DiffState, side: Side, picked: Option<PickedFile>): (r: DiffState)
    ensures side == A ==> r == s.(doc1File := r.doc1File)
    ensures side == B ==> r == s.(doc2File := r.doc2File)
    ensures picked.None? || !picked.value.result.TextResult? ==> r == s
    ensures picked.Some? && picked.value.result.TextResult? ==>
              (if side == A then r.doc1File else r.doc2File) == MediaFromUpload(picked.value)
  {
    if picked.None? then s
    else match MediaFromUpload(picked.value)
      case None => s
      case Some(media) => if side == A then s.(doc1File := Some(media)) else s.(doc2File := Some(media))
  }

  /** Each side needs text or a file before a comparison can start: each
      side then reaches the model as its own text or as its own file. */
  function ReadyToCompare(s: DiffState): (ready: bool)
    ensures ready <==> (ShownText(s.doc1Text) == s.doc1Text || s.doc1File.Some?) &&
                       (ShownText(s.doc2Text) == s.doc2Text || s.doc2File.Some?)
  {
    (s.doc1Text != "" || s.doc1File.Some?) && (s.doc2Text != "" || s.doc2File.Some?)
  }

  const PromptHead := "\n    【文档 A】\n    文本内容："
  const PromptMiddle := "\n    \n    【文档 B】\n    文本内容："
  const PromptTail := "\n\n    请执行深度语义对比并输出分析报告。"

  /** The comparison prompt: side A's slot, then side B's slot, each holding
      that side's text or the attachment placeholder. */
  function ComparePrompt(text1: string, text2: string): (prompt: string)
    ensures var shown1, shown2 := ShownText(text1), ShownText(text2);
            var at := |PromptHead| + |shown1| + |PromptMiddle|;
            |prompt| >= at + |shown2| &&
            prompt[|PromptHead|..|PromptHead| + |shown1|] == shown1 && prompt[at..at + |shown2|] == shown2
  {
    Text.SlotsOfTwo(PromptHead, ShownText(text1), PromptMiddle, ShownText(text2), PromptTail);
    PromptHead + ShownText(text1) + PromptMiddle + ShownText(text2) + PromptTail
  }

  /** With side B fixed, the prompt determines what side A shows. */
  lemma ComparePromptSlotA(a1: string, a2: string, b: string)
    requires ComparePrompt(a1, b) == ComparePrompt(a2, b)
    ensures ShownText(a1) == ShownText(a2)
  {
    Text.FirstOfTwo(PromptHead, ShownText(a1), ShownText(a2), PromptMiddle, ShownText(b), PromptTail);
  }

  /** With side A fixed, the prompt determines what side B shows. */
  lemma ComparePromptSlotB(a: string, b1: string, b2: string)
    requires ComparePrompt(a, b1) == ComparePrompt(a, b2)
    ensures ShownText(b1) == ShownText(b2)
  {
    Text.SecondOfTwo(PromptHead, ShownText(a), PromptMiddle, ShownText(b1), ShownText(b2), PromptTail);
  }

  /** The attachments: A's file if any, then B's file if any. */
  function CompareMedia(file1: Option<MediaFile>, file2: Option<MediaFile>): (items: seq<Gemini.MediaItem>)
    ensures |items| == (if file1.Some? then 1 else 0) + (if file2.Some? then 1 else 0)
    ensures file1.Some? ==> items[0] == ToMediaItem(file1.value)
    ensures file2.Some? ==> items[|items| - 1] == ToMediaItem(file2.value)
  {
    (if file1.Some? then [ToMediaItem(file1.value)] else []) +
    (if file2.Some? then [ToMediaItem(file2.value)] else [])
  }

  /** Builds `mediaItems` by conditional pushes, A before B. */
  method CollectMediaItems(file1: Option<MediaFile>, file2: Option<MediaFile>)
    returns (items: seq<Gemini.MediaItem>)
    ensures items == CompareMedia(file1, file2)
  {
    items := [];
    if file1.Some? {
      items := items + [Gemini.MediaItem(file1.value.data, file1.value.mimeType)];
    }
    if file2.Some? {
      items := items + [Gemini.MediaItem(file2.value.data, file2.value.mimeType)];
    }
  }

  const SystemInstruction := @"你是一个极致精细的专利对比分析专家和侵权判定专家。
    任务：对比“文档 A”与“文档 B”的实质技术特征差异。
    要求：
    1. 语义 Diff：识别两份文档在技术特征、实施方式、零件结构上的具体差异。
    2. 实质性改动分析：是否存在特征的增加、减少、置换？是否属于本领域的惯用手段替换？
    3. 覆盖关系预判：分析文档 B 是否落入文档 A 的保护范围（如果是对比权利要求），或两者的等同性。
    4. 如果提供了文件（PDF/图表），请重点比对附图中的结构差异。
    5. 采用结构清晰的对比表格或分条目 Markdown 输出，确保逻辑具有极强的法律对抗性。"

  /** The adapter call `handleCompare` makes, or None when a side is empty.
      An empty attachment list is passed as absent. */
  function CompareCall(s: DiffState): (call: Option<Gemini.TaskCall>)
    ensures call.Some? <==> ReadyToCompare(s)
    ensures call.Some? ==> call.value.useThinking && call.value.useSearch
    ensures call.Some? ==> call.value.systemInstruction == SystemInstruction
    ensures call.Some? ==> call.value.prompt == ComparePrompt(s.doc1Text, s.doc2Text)
    ensures call.Some? ==> (call.value.mediaItems.None? <==> s.doc1File.None? && s.doc2File.None?)
    ensures call.Some? ==> Gemini.Attached(call.value.mediaItems) == CompareMedia(s.doc1File, s.doc2File)
  {
    if !ReadyToCompare(s) then None
    else
      var items := CompareMedia(s.doc1File, s.doc2File);
      Some(Gemini.TaskCall(ComparePrompt(s.doc1Text, s.doc2Text), SystemInstruction, true, true,
                           if |items| > 0 then Some(items) else None))
  }

  /** The request for a ready comparison: the prompt, then A's file, then B's
      file, so between one and three parts; thinking and search on. */
  lemma CompareRequest(s: DiffState)
    requires ReadyToCompare(s)
    ensures var req := Gemini.RequestFor(CompareCall(s).value);
            1 <= |req.parts| <= 3 &&
            req.parts[0] == Gemini.TextPart(ComparePrompt(s.doc1Text, s.doc2Text)) &&
            Gemini.AttachmentsOf(req.parts[1..]) == CompareMedia(s.doc1File, s.doc2File) &&
            req.config.thinkingConfig.Some? && req.config.tools.Some?
  {
    Gemini.RequestRoundTrip(CompareCall(s).value);
  }

  /** What `handleCompare` sets before awaiting: loading on, the previous
      result still shown. */
  function BeginCompare(s: DiffState): (pending: DiffState)
    ensures pending.loading && pending == s.(loading := true)
  {
    s.(loading := true)
  }

  /** What `handleCompare` sets once the adapter settles: loading off, the
      response on success, the previous result kept on failure. */
  function FinishCompare(s: DiffState, settled: Result<Gemini.AnalysisResult, Gemini.ServiceError>): (after: DiffState)
    ensures !after.loading && after == s.(loading := false, diffResult := after.diffResult)
    ensures settled.Success? ==> after.diffResult == settled.value.response
    ensures settled.Failure? ==> after.diffResult == s.diffResult
  {
    s.(loading := false, diffResult := if settled.Success? then settled.value.response else s.diffResult)
  }

  /** After a comparison loading is off and the inputs are as they were; the
      shown result is the adapter's response on success, and the previous
      result stays on failure. */
  lemma CompareSettles(s: DiffState, outcome: Gemini.CallOutcome)
    ensures var after := FinishCompare(BeginCompare(s), Gemini.Settle(outcome));
            !after.loading && after == s.(loading := false, diffResult := after.diffResult) &&
            (outcome.Raised? ==> after.diffResult == s.diffResult) &&
            (outcome.Replied? ==> after.diffResult == Gemini.ToAnalysisResult(outcome.response).response != "")
  {
  }

  /** `handleCompare`: nothing happens unless both sides have content;
      otherwise exactly one adapter call. */
  method HandleCompare(client: Gemini.ModelsClient, s: DiffState) returns (after: DiffState)
    modifies client
    ensures !ReadyToCompare(s) ==> after == s && client.sent == old(client.sent)
    ensures ReadyToCompare(s) ==>
              var req := Gemini.RequestFor(CompareCall(s).value);
              client.sent == old(client.sent) + [req] &&
              after == FinishCompare(BeginCompare(s), Gemini.Settle(client.answer(|old(client.sent)|, req)))
  {
    if !ReadyToCompare(s) {
      return s;
    }
    var pending := BeginCompare(s);
    var prompt := ComparePrompt(s.doc1Text, s.doc2Text);
    var items := CollectMediaItems(s.doc1File, s.doc2File);
    var settled := Gemini.AnalyzePatentTask(client, prompt, SystemInstruction, true, true,
                                            if |items| > 0 then Some(items) else None);
    after := FinishCompare(pending, settled);
  }
}
