/** The request adapter `analyzePatentTask`: it turns a prompt, a system
    instruction, two feature flags and optional inline attachments into one
    `generateContent` request, sends it once, and normalises the reply. The
    hosted model is represented by `ModelsClient`, which records every request
    and answers with whatever its `answer` function says. */
module Gemini {
  import opened Wrappers

  const ModelName := "gemini-3-pro-preview"
  /** The fixed sampling temperature; carried as a constant, never computed with. */
  const Temperature: real := 0.7
  /** The largest thinking budget the model accepts. */
  const MaxThinkingBudget: nat := 32768
  const FallbackResponse := "未能生成有效响应。"

  // ---------------------------------------------------------------- request

  datatype ThinkingConfig = ThinkingConfig(thinkingBudget: nat)
  datatype Tool = GoogleSearch

  /** The `config` object; an absent optional field is `None`. */
  datatype GenerateConfig = GenerateConfig(
    systemInstruction: string,
    temperature: real,
    thinkingConfig: Option<ThinkingConfig>,
    tools: Option<seq<Tool>>)

  /** An inline attachment. `data` is `None` when the caller's payload is
      `undefined` (a data URL without a comma). */
  datatype MediaItem = MediaItem(data: Option<string>, mimeType: string)

  datatype Part = TextPart(text: string) | InlineDataPart(inlineData: MediaItem)

  datatype Request = Request(model: string, parts: seq<Part>, config: GenerateConfig)

  /** The arguments of one `analyzePatentTask` call. */
  datatype TaskCall = TaskCall(
    prompt: string,
    systemInstruction: string,
    useThinking: bool,
    useSearch: bool,
    mediaItems: Option<seq<MediaItem>>)

  /** The configuration for a call: the instruction and temperature always,
      the thinking budget exactly when thinking is on, the search tool exactly
      when search is on. */
  function ConfigFor(systemInstruction: string, useThinking: bool, useSearch: bool): (config: GenerateConfig)
    ensures config.systemInstruction == systemInstruction && config.temperature == Temperature
    ensures config.thinkingConfig.Some? <==> useThinking
    ensures config.thinkingConfig.Some? ==> config.thinkingConfig.value.thinkingBudget == MaxThinkingBudget
    ensures config.tools.Some? <==> useSearch
    ensures config.tools.Some? ==> config.tools.value == [GoogleSearch]
  {
    GenerateConfig(
      systemInstruction,
      Temperature,
      if useThinking then Some(ThinkingConfig(MaxThinkingBudget)) else None,
      if useSearch then Some([GoogleSearch]) else None)
  }

  /** One inline-data part per item, in order, each carrying the item as given. */
  function InlineParts(items: seq<MediaItem>): (parts: seq<Part>)
    ensures |parts| == |items|
    ensures forall i :: 0 <= i < |items| ==> parts[i] == InlineDataPart(items[i])
  {
    if items == [] then [] else [InlineDataPart(items[0])] + InlineParts(items[1..])
  }

  /** The attachments a call carries; an absent list carries none. */
  function Attached(mediaItems: Option<seq<MediaItem>>): seq<MediaItem> {
    mediaItems.GetOr([])
  }

  /** The content parts: the prompt first, then every attachment in input order. */
  function PartsFor(prompt: string, mediaItems: Option<seq<MediaItem>>): (parts: seq<Part>)
    ensures |parts| == 1 + |Attached(mediaItems)|
    ensures parts[0] == TextPart(prompt)
    ensures forall i :: 0 <= i < |Attached(mediaItems)| ==>
              parts[i + 1] == InlineDataPart(Attached(mediaItems)[i])
  {
    [TextPart(prompt)] +
    if mediaItems.Some? && |mediaItems.value| > 0 then InlineParts(mediaItems.value) else []
  }

  /** The `generateContent` request for a call: the fixed model, the prompt
      followed by one part per attachment, and the call's configuration. */
  function RequestFor(call: TaskCall): (request: Request)
    ensures request.model == ModelName
    ensures |request.parts| == 1 + |Attached(call.mediaItems)| && request.parts[0] == TextPart(call.prompt)
    ensures request.config == ConfigFor(call.systemInstruction, call.useThinking, call.useSearch)
  {
    Request(
      ModelName,
      PartsFor(call.prompt, call.mediaItems),
      ConfigFor(call.systemInstruction, call.useThinking, call.useSearch))
  }

  /** The attachments recorded in a list of parts, in order. */
  function AttachmentsOf(parts: seq<Part>): seq<MediaItem> {
    if parts == [] then []
    else (if parts[0].InlineDataPart? then [parts[0].inlineData] else []) + AttachmentsOf(parts[1..])
  }

  lemma {:induction false} AttachmentsOfInlineParts(items: seq<MediaItem>)
    ensures AttachmentsOf(InlineParts(items)) == items
  {
    if items != [] {
      var parts := InlineParts(items);
      assert parts[1..] == InlineParts(items[1..]);
      AttachmentsOfInlineParts(items[1..]);
      assert [items[0]] + items[1..] == items;
    }
  }

  /** Reading a request back gives the call's data: the model id, the prompt,
      the instruction, both flags and exactly the attachments, in order. */
  lemma RequestRoundTrip(call: TaskCall)
    ensures RequestFor(call).model == ModelName
    ensures RequestFor(call).parts[0] == TextPart(call.prompt)
    ensures AttachmentsOf(RequestFor(call).parts[1..]) == Attached(call.mediaItems)
    ensures RequestFor(call).config.systemInstruction == call.systemInstruction
    ensures RequestFor(call).config.thinkingConfig.Some? == call.useThinking
    ensures RequestFor(call).config.tools.Some? == call.useSearch
  {
    var parts := RequestFor(call).parts;
    if call.mediaItems.Some? && |call.mediaItems.value| > 0 {
      assert parts[1..] == InlineParts(call.mediaItems.value);
      AttachmentsOfInlineParts(call.mediaItems.value);
    } else {
      assert parts[1..] == [];
    }
  }

  /** An absent list and an empty list both give a request with the prompt
      as its only part. */
  lemma NoAttachmentsOnePart(call: TaskCall)
    requires call.mediaItems.None? || call.mediaItems == Some([])
    ensures RequestFor(call).parts == [TextPart(call.prompt)]
  {
  }

  /** Builds `config` field by field as the adapter does. */
  method BuildConfig(systemInstruction: string, useThinking: bool, useSearch: bool)
    returns (config: GenerateConfig)
    ensures config == ConfigFor(systemInstruction, useThinking, useSearch)
  {
    config := GenerateConfig(systemInstruction, Temperature, None, None);
    if useThinking {
      config := config.(thinkingConfig := Some(ThinkingConfig(MaxThinkingBudget)));
    }
    if useSearch {
      config := config.(tools := Some([GoogleSearch]));
    }
  }

  /** Builds `parts` by pushing one inline-data part per item after the prompt. */
  method BuildParts(prompt: string, mediaItems: Option<seq<MediaItem>>) returns (parts: seq<Part>)
    ensures parts == PartsFor(prompt, mediaItems)
  {
    parts := [TextPart(prompt)];
    if mediaItems.Some? && |mediaItems.value| > 0 {
      var items := mediaItems.value;
      var i := 0;
      while i < |items|
        invariant 0 <= i <= |items|
        invariant |parts| == i + 1 && parts[0] == TextPart(prompt)
        invariant forall j :: 0 <= j < i ==> parts[j + 1] == InlineDataPart(items[j])
      {
        parts := parts + [InlineDataPart(MediaItem(items[i].data, items[i].mimeType))];
        i := i + 1;
      }
    }
    ghost var expected := PartsFor(prompt, mediaItems);
    assert |parts| == |expected|;
    assert forall k :: 0 <= k < |parts| ==> parts[k] == expected[k] by {
      forall k | 0 <= k < |parts| ensures parts[k] == expected[k] {
        if k > 0 {
          assert parts[(k - 1) + 1] == expected[(k - 1) + 1];
        }
      }
    }
  }

  // ---------------------------------------------------------------- reply

  /** A grounding source; its fields are passed through unchecked. */
  datatype WebSource = WebSource(uri: Option<string>, title: Option<string>)
  datatype GroundingChunk = GroundingChunk(web: Option<WebSource>)
  datatype GroundingMetadata = GroundingMetadata(groundingChunks: Option<seq<GroundingChunk>>)
  datatype Candidate = Candidate(groundingMetadata: Option<GroundingMetadata>)

  /** The part of the service's reply the adapter reads. */
  datatype GenerateContentResponse = GenerateContentResponse(
    text: Option<string>,
    candidates: Option<seq<Candidate>>)

  /** Whatever the service call throws (network, authentication, malformed
      reply), known by its message. */
  datatype ServiceError = ServiceError(message: string)

  /** How one `generateContent` call settles. */
  datatype CallOutcome = Replied(response: GenerateContentResponse) | Raised(error: ServiceError)

  /** The adapter's result; `thinking` is never filled in by the adapter. */
  datatype AnalysisResult = AnalysisResult(
    thinking: Option<string>,
    response: string,
    groundingSources: seq<GroundingChunk>)

  /** `candidates?.[0]?.groundingMetadata?.groundingChunks`. */
  function FirstCandidateChunks(reply: GenerateContentResponse): (chunks: Option<seq<GroundingChunk>>)
    ensures chunks.Some? ==> reply.candidates.Some? && |reply.candidates.value| >= 1 &&
                             reply.candidates.value[0].groundingMetadata == Some(GroundingMetadata(chunks))
    ensures reply.candidates.None? || reply.candidates == Some([]) ==> chunks.None?
    ensures reply.candidates.Some? && |reply.candidates.value| >= 1 &&
            reply.candidates.value[0].groundingMetadata.Some? ==>
              chunks == reply.candidates.value[0].groundingMetadata.value.groundingChunks
  {
    match reply.candidates
    case Some(cs) =>
      if cs != [] && cs[0].groundingMetadata.Some? then cs[0].groundingMetadata.value.groundingChunks
      else None
    case None => None
  }

  /** The normalised result: the reply's text unless it is missing or empty,
      in which case the fixed placeholder, so never an empty response; the
      first candidate's grounding chunks, or none. */
  function ToAnalysisResult(reply: GenerateContentResponse): (result: AnalysisResult)
    ensures result.response != ""
    ensures reply.text.Some? && reply.text.value != "" ==> result.response == reply.text.value
    ensures reply.text.None? || reply.text == Some("") ==> result.response == FallbackResponse
    ensures result.thinking.None?
    ensures reply.candidates.None? || reply.candidates == Some([]) ==> result.groundingSources == []
  {
    AnalysisResult(
      None,
      if reply.text.Some? && reply.text.value != "" then reply.text.value else FallbackResponse,
      FirstCandidateChunks(reply).GetOr([]))
  }

  /** Only the first candidate is read: the candidates after it never change
      the result. */
  lemma OnlyFirstCandidateGrounds(text: Option<string>, first: Candidate, others: seq<Candidate>)
    ensures ToAnalysisResult(GenerateContentResponse(text, Some([first] + others))) ==
            ToAnalysisResult(GenerateContentResponse(text, Some([first])))
    ensures ToAnalysisResult(GenerateContentResponse(text, Some([first]))).groundingSources ==
            if first.groundingMetadata.Some? then first.groundingMetadata.value.groundingChunks.GetOr([]) else []
  {
  }

  /** What the adapter's promise settles to: a raised error is re-raised
      unchanged and yields no result; a reply is normalised. */
  function Settle(outcome: CallOutcome): (r: Result<AnalysisResult, ServiceError>)
    ensures outcome.Raised? ==> r == Failure(outcome.error)
    ensures outcome.Replied? ==> r.Success? && r.value.response != ""
    ensures outcome.Replied? ==> r.value == ToAnalysisResult(outcome.response)
  {
    match outcome
    case Raised(e) => Failure(e)
    case Replied(reply) => Success(ToAnalysisResult(reply))
  }

  // ---------------------------------------------------------------- client

  /** The `models` endpoint of the hosted service. */
  class ModelsClient {
    /** The reply the service gives to the n-th request sent through this
        client (counting from 0); the same request may get different replies. */
    const answer: (nat, Request) -> CallOutcome
    /** Every request sent so far, oldest first. */
    var sent: seq<Request>

    constructor (answer: (nat, Request) -> CallOutcome)
      ensures this.answer == answer && sent == []
    {
      this.answer := answer;
      sent := [];
    }

    /** `generateContent`: one round trip. */
    method GenerateContent(request: Request) returns (outcome: CallOutcome)
      modifies this
      ensures sent == old(sent) + [request]
      ensures outcome == answer(|old(sent)|, request)
    {
      outcome := answer(|sent|, request);
      sent := sent + [request];
    }
  }

  /** `analyzePatentTask`: sends exactly one request, built from the
      arguments, and settles with the normalised reply or the call's own
      error; there is no retry. */
  method AnalyzePatentTask(
    client: ModelsClient,
    prompt: string,
    systemInstruction: string,
    useThinking: bool := true,
    useSearch: bool := false,
    mediaItems: Option<seq<MediaItem>> := None)
    returns (result: Result<AnalysisResult, ServiceError>)
    modifies client
    ensures client.sent ==
            old(client.sent) + [RequestFor(TaskCall(prompt, systemInstruction, useThinking, useSearch, mediaItems))]
    ensures result ==
            Settle(client.answer(|old(client.sent)|,
                                 RequestFor(TaskCall(prompt, systemInstruction, useThinking, useSearch, mediaItems))))
  {
    var config := BuildConfig(systemInstruction, useThinking, useSearch);
    var parts := BuildParts(prompt, mediaItems);
    var outcome := client.GenerateContent(Request(ModelName, parts, config));
    result := Settle(outcome);
  }

  /** Runs a call record through the adapter. */
  method Run(client: ModelsClient, call: TaskCall) returns (result: Result<AnalysisResult, ServiceError>)
    modifies client
    ensures client.sent == old(client.sent) + [RequestFor(call)]
    ensures result == Settle(client.answer(|old(client.sent)|, RequestFor(call)))
  {
    result := AnalyzePatentTask(client, call.prompt, call.systemInstruction,
                                call.useThinking, call.useSearch, call.mediaItems);
  }

  /** A caller that omits the flags gets thinking on and search off. */
  method AnalyzeWithDefaults(client: ModelsClient, prompt: string, systemInstruction: string)
    returns (result: Result<AnalysisResult, ServiceError>)
    modifies client
    ensures client.sent == old(client.sent) + [RequestFor(TaskCall(prompt, systemInstruction, true, false, None))]
    ensures |client.sent| == |old(client.sent)| + 1
    ensures client.sent[|client.sent| - 1].config.thinkingConfig == Some(ThinkingConfig(MaxThinkingBudget))
    ensures client.sent[|client.sent| - 1].config.tools.None?
    ensures client.sent[|client.sent| - 1].parts == [TextPart(prompt)]
  {
    result := AnalyzePatentTask(client, prompt, systemInstruction);
  }
}
