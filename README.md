# patentpro-next: request shaping for the patent assistant

patentpro-next is a React front end for patent work. It has five screens, four of which call the model:
- the office-action assistant;
- the document comparison;
- the technical understanding;
- the specification drafting;
- a dashboard that only navigates to the others.

Each screen collects text and uploaded files. It checks that there is enough input, builds a prompt and a list of inline attachments, and calls a single adapter, `analyzePatentTask`. The adapter turns that call into a `generateContent` request for the hosted model `gemini-3-pro-preview` and normalises the reply.

This project models the logic behind those screens in Dafny:

- **`Gemini`** is the request adapter.
  - The configuration has the system instruction and temperature 0.7. It gets a 32768 thinking budget exactly when thinking is on, and the Google-search tool exactly when search is on.
  - The content parts are the prompt followed by one inline-data part per attachment, in order.
  - The reply becomes `{response, groundingSources}`. The response falls back to a fixed placeholder, and the grounding sources come from the first candidate only.
  - A failed call is re-raised unchanged.
  - The service is a `ModelsClient` object. It records every request it is sent and answers the n-th request with an arbitrary but fixed `answer(n, request)`. That makes "exactly one call, no retry" a statement about the client's state.
  - `BuildConfig` and `BuildParts` are the step-by-step construction of the payload. They are proved equal to the specification functions `ConfigFor` and `PartsFor`.
- **`Text`** models JavaScript's `split` with a one-character separator and `join`. **`DataUrl`** models the payload extraction `dataUrl.split(',')[1]` that every upload path performs. On a base64 data URL (section 3 of RFC 2397, section 4 of RFC 4648) the extraction returns exactly the encoded payload.
- **`FileUtil`** covers the two shared helpers:
  - `readFileAsDataUrl`: the file reader's string result, or the read-failure error;
  - `getBase64FromFile`: the payload, or the empty-content error.
- **`ViewInputs`** holds what the screens share: the `见附件` placeholder for empty text, the upload callback that stores a payload with its type or the `application/pdf` default, and the conversion of a stored file into an attachment.
- **`OAAgent`** is the office-action case library, a sequence of documents in three categories.
  - It defines `addPriorArt`, `removeDoc`, `updateDoc` and the upload callback.
  - It defines the readiness guard and the context text and attachment list sent for analysis.
  - It proves which invariants the operations keep and which they break. Adding a reference and editing text or files keep distinct ids and the D1, D2, … numbering of the references. Removal keeps distinct ids and never touches the office action or the claims, but it does not renumber: removing D1 leaves the references numbered from D2 (`RemoveFirstBreaksNumbering`), and the next reference added repeats the last label (`RemoveThenAddRepeatsLabel`).
- **`DiffExpert`**, **`Understander`** and **`Drafting`** cover the other three screens. Each has a readiness guard, a prompt template with proofs that it carries the user's text, a fixed-order attachment list, fixed adapter flags, and how the screen's state settles after the call.

Each screen's click handler is modelled twice:
- as pure functions: the call it makes (`...Call`), the state before the await (`Begin...`) and after it (`Finish...`);
- as a method that sends that call through a `ModelsClient` and is proved to produce exactly that request and that final state.

## Model

| member | source | states |
|---|---|---|
| `Text.Join` | views/OAAgent.tsx:96 | `join` of no parts is empty and of one part is that part; otherwise the result starts with the first part |
| `Text.Split` | src/shared/utils/file.ts:17 | `split` on one character gives at least one field, exactly one when the separator is absent, and no field contains the separator |
| `Text.SplitJoin` | src/shared/utils/file.ts:17 | joining the fields of a split with the separator gives back the original string |
| `Text.SplitWithoutSeparator` | src/shared/utils/file.ts:17 | a string without the separator splits into itself alone |
| `Text.SplitAtFirst` | src/shared/utils/file.ts:17 | the first field ends at the first separator and the remainder is split on its own |
| `Text.JoinSplit` | src/shared/utils/file.ts:17 | splitting a join of separator-free parts gives back the parts |
| `Text.JoinSnoc` | views/OAAgent.tsx:96 | joining one more part appends the separator and that part |
| `Text.Embedded` | views/DiffExpert.tsx:50-57 | a fixed template around one inserted text determines that text |
| `Text.FirstOfTwo` | views/DiffExpert.tsx:50-57 | in a fixed template with two inserted texts, the whole and the second text determine the first |
| `Text.SecondOfTwo` | views/DiffExpert.tsx:50-57 | in a fixed template with two inserted texts, the whole and the first text determine the second |
| `Text.Slot` | views/Understander.tsx:40-44 | a template with one inserted text reads back as its head, the text and its tail |
| `Text.SlotsOfTwo` | views/DiffExpert.tsx:50-57 | a template with two inserted texts reads back each of them at its own offset |
| `DataUrl.PayloadField` | src/shared/utils/file.ts:17 | `split(',')[1]` is undefined exactly when there is no comma, and otherwise holds no comma |
| `DataUrl.PayloadStopsAtNextComma` | src/shared/utils/file.ts:17 | the second field runs from the first comma to the next comma or the end |
| `DataUrl.PayloadOfHeaderAndData` | src/shared/utils/file.ts:17 | a comma-free payload after a comma-free header is returned whole |
| `DataUrl.PayloadOfEncoded` | src/shared/utils/file.ts:15-17 | extracting the payload of a base64 data URL inverts encoding it |
| `FileUtil.ReadFileAsDataUrl` | src/shared/utils/file.ts:1-13 | resolves exactly when the reader's result is a string, with that string unchanged; otherwise rejects with the reader's own error, or with `文件读取失败` when there is none |
| `FileUtil.GetBase64FromFile` | src/shared/utils/file.ts:15-22 | on success the value is non-empty and is the second comma field of the data URL; a read failure passes through unchanged; a missing or empty field rejects with `文件内容为空`; a successful read with a non-empty field resolves to that field |
| `FileUtil.GetBase64OfEncodedFile` | src/shared/utils/file.ts:15-22 | a file read as a base64 data URL with a non-empty payload yields exactly that payload |
| `Gemini.ConfigFor` | services/gemini.ts:18-30 | the config always has the instruction and temperature 0.7; a 32768 thinking budget is present exactly when thinking is on, and the search tool exactly when search is on (absent, not zeroed, otherwise) |
| `Gemini.BuildConfig` | services/gemini.ts:18-30 | the field-by-field construction equals `ConfigFor` |
| `Gemini.InlineParts` | services/gemini.ts:34-41 | one inline-data part per item, in order, carrying the item unchanged |
| `Gemini.PartsFor` | services/gemini.ts:32-42 | N+1 parts: the prompt at index 0, then the i-th attachment at index i+1 |
| `Gemini.BuildParts` | services/gemini.ts:32-42 | the push loop produces exactly `PartsFor` |
| `Gemini.AttachmentsOfInlineParts` | services/gemini.ts:34-41 | reading the attachments back from the inline parts gives the items, in order |
| `Gemini.RequestFor` | services/gemini.ts:45-49 | the request names the model `gemini-3-pro-preview`, has the prompt as its first of 1+N parts for N attachments, and carries the call's configuration |
| `Gemini.RequestRoundTrip` | services/gemini.ts:45-49 | the request carries the model id `gemini-3-pro-preview`, the prompt first, exactly the given attachments in order, the instruction and both flags |
| `Gemini.NoAttachmentsOnePart` | services/gemini.ts:33 | an absent or empty attachment list gives the prompt as the only part |
| `Gemini.FirstCandidateChunks` | services/gemini.ts:54 | grounding chunks come only from the first candidate's metadata; no candidates means none |
| `Gemini.ToAnalysisResult` | services/gemini.ts:51-55 | the response is the reply text when non-empty and `未能生成有效响应。` otherwise, so it is never empty; without candidates the grounding sources are empty |
| `Gemini.OnlyFirstCandidateGrounds` | services/gemini.ts:54 | grounding sources are the first candidate's chunks, or none; later candidates never matter |
| `Gemini.Settle` | services/gemini.ts:44-59 | a raised error is re-raised unchanged with no result; a reply yields the normalised result |
| `Gemini.ModelsClient.constructor` | services/gemini.ts:16 | a fresh client has sent nothing |
| `Gemini.ModelsClient.GenerateContent` | services/gemini.ts:45-49 | one call records one request and returns the service's answer to it |
| `Gemini.AnalyzePatentTask` | services/gemini.ts:8-60 | exactly one request, built from the arguments, is sent, and the result is that request's settled answer |
| `Gemini.Run` | services/gemini.ts:8-14 | running a call record sends exactly its request and settles its answer |
| `Gemini.AnalyzeWithDefaults` | services/gemini.ts:11-12 | omitting the flags means thinking on (budget 32768), search off, and no attachments |
| `ViewInputs.ShownText` | views/DiffExpert.tsx:52 | the shown text (the text, or `见附件` when it is empty) is never empty and is the user's text whenever there is one |
| `ViewInputs.MimeOrPdf` | views/DiffExpert.tsx:27 | the file's type when known, `application/pdf` otherwise |
| `ViewInputs.MediaFromUpload` | views/Understander.tsx:15-21 | an upload stores the second comma field of the reader's string, the type or the PDF default, and the name; a non-string result stores nothing |
| `ViewInputs.UploadOfEncodedFile` | views/Understander.tsx:15-21 | a file read as a base64 data URL is stored with exactly its payload |
| `ViewInputs.ToMediaItem` | views/DiffExpert.tsx:61 | an attachment carries the stored file's data and type unchanged |
| `OAAgent.DigitChar` | views/OAAgent.tsx:31 | a digit below ten renders as the decimal digit character of that value |
| `OAAgent.Decimal` | views/OAAgent.tsx:31 | a numeral is made of the characters `0` to `9`, has at least one of them, at least two from ten on, and no leading zero except for zero itself |
| `OAAgent.DecimalDenotes` | views/OAAgent.tsx:31 | the numeral of n, read as decimal digits left to right, denotes n |
| `OAAgent.DecimalInjective` | views/OAAgent.tsx:31 | different counts render as different numerals |
| `OAAgent.PriorLabel` | views/OAAgent.tsx:31 | the label is the prefix `对比文件 D` followed by a numeral of the characters `0` to `9`, without a leading zero, that denotes the count |
| `OAAgent.PriorLabelInjective` | views/OAAgent.tsx:31 | different counts give different `对比文件 D<n>` labels |
| `OAAgent.OfCategory` | views/OAAgent.tsx:27 | the filter keeps only documents of that category and is no longer than the list |
| `OAAgent.OfCategoryMembers` | views/OAAgent.tsx:27 | the filter selects only documents of the list |
| `OAAgent.OfCategoryAppend` | views/OAAgent.tsx:27 | filtering distributes over concatenation |
| `OAAgent.OfCategoryKeeps` | views/OAAgent.tsx:27 | the filter keeps every document of its category |
| `OAAgent.OfCategoryKeepsAll` | views/OAAgent.tsx:27 | every document of a category is in that category's selection |
| `OAAgent.PriorLabelsDistinct` | views/OAAgent.tsx:31 | in a numbered library, different references have different labels |
| `OAAgent.InitialLibrary` | views/OAAgent.tsx:16-20 | the initial library is three documents ordered OA, APP, PRIOR, with distinct ids and the reference labelled D1 |
| `OAAgent.InitialState` | views/OAAgent.tsx:15-22 | the screen opens idle with no result and a three-document library with distinct ids and numbered references, and offers nothing to analyse |
| `OAAgent.InitialLibraryEmpty` | views/OAAgent.tsx:16-20 | initially nothing is attached and the screen is not ready for analysis |
| `OAAgent.AddPriorArt` | views/OAAgent.tsx:26-34 | appends exactly one empty prior-art document with the fresh id after the unchanged existing list |
| `OAAgent.AddPriorArtCategories` | views/OAAgent.tsx:26-34 | the new document becomes the last reference, and every other category is untouched |
| `OAAgent.NumberedSnoc` | views/OAAgent.tsx:26-34 | a run of references labelled D1..Dn stays numbered when one labelled D(n+1) is appended |
| `OAAgent.AddPriorArtNumbering` | views/OAAgent.tsx:26-34 | the new label is `对比文件 D(k+1)` for k references, so the D1..Dn numbering is kept |
| `OAAgent.AddPriorArtKeepsIdsUnique` | views/OAAgent.tsx:29 | a fresh id keeps ids distinct |
| `OAAgent.FindById` | views/OAAgent.tsx:37 | `find` returns a document of the list with that id, or none when no document has it |
| `OAAgent.WithoutId` | views/OAAgent.tsx:38 | the filter is no longer than the list |
| `OAAgent.WithoutIdMembers` | views/OAAgent.tsx:38 | the filter keeps exactly the documents with another id |
| `OAAgent.RemoveDoc` | views/OAAgent.tsx:36-40 | the list never grows, and it changes only when the first document with that id is a prior-art reference |
| `OAAgent.RemoveDocMembers` | views/OAAgent.tsx:36-40 | either the list is unchanged, or exactly the documents with that id are gone |
| `OAAgent.FindByIdAt` | views/OAAgent.tsx:37 | the found document sits at an index before which no document has that id, so it is the first match |
| `OAAgent.WithoutAbsentId` | views/OAAgent.tsx:38 | filtering out an id nobody has changes nothing |
| `OAAgent.UniqueIdsTail` | views/OAAgent.tsx:37-38 | with distinct ids, the tail has distinct ids and none equal to the head's |
| `OAAgent.FindByIdOfMember` | views/OAAgent.tsx:37 | with distinct ids, looking up a document's id finds that document |
| `OAAgent.WithoutIdAppend` | views/OAAgent.tsx:38 | filtering distributes over concatenation |
| `OAAgent.IdOnlyAt` | views/OAAgent.tsx:38 | with distinct ids, no document before or after a position has the id of the document there |
| `OAAgent.WithoutIdAround` | views/OAAgent.tsx:38 | filtering out a document's id drops it and filters the documents on either side |
| `OAAgent.WithoutUniqueId` | views/OAAgent.tsx:38 | with distinct ids, filtering out one document's id removes exactly that document |
| `OAAgent.RemovedDocAt` | views/OAAgent.tsx:36-40 | with distinct ids, a removal that changes the list deletes exactly one prior-art document, keeping the others in order |
| `OAAgent.OfCategoryRemoveAt` | views/OAAgent.tsx:38 | how a category's documents split around a removed position |
| `OAAgent.UniqueIdsRemoveAt` | views/OAAgent.tsx:38 | deleting one document keeps ids distinct |
| `OAAgent.RemoveDocSparesOaAndApp` | views/OAAgent.tsx:36-40 | with distinct ids, removal never changes the office-action or claims documents |
| `OAAgent.RemoveDocRemovesAtMostOne` | views/OAAgent.tsx:36-40 | with distinct ids, removal drops at most one document and keeps ids distinct |
| `OAAgent.RemoveReference` | views/OAAgent.tsx:36-40 | with distinct ids, removing a present reference is the filter and leaves one reference fewer |
| `OAAgent.RemoveKeepsOthers` | views/OAAgent.tsx:36-40 | a removal keeps every document with another id |
| `OAAgent.RemoveThenAddNumbering` | views/OAAgent.tsx:26-40 | with distinct ids, after removing a reference the next one added is labelled with the reference count before the removal, and the other documents stay |
| `OAAgent.RemoveThenAddRepeatsLabel` | views/OAAgent.tsx:26-40 | labels count references rather than name them: after removing the first of two or more references, the next one added repeats the last one's label |
| `OAAgent.RemoveFirstReference` | views/OAAgent.tsx:36-40 | with distinct ids, removing the first reference leaves exactly the references after it, in order |
| `OAAgent.RemoveFirstBreaksNumbering` | views/OAAgent.tsx:36-40 | removal does not renumber: after removing D1 of two or more references, the library is no longer numbered from D1 |
| `OAAgent.Merge` | views/OAAgent.tsx:43 | `{ ...d, ...updates }`: every field the update gives replaces the document's, and every other field is kept |
| `OAAgent.MergeAgain` | views/OAAgent.tsx:43 | applying the same edit twice is applying it once |
| `OAAgent.UpdateDoc` | views/OAAgent.tsx:42-44 | same length and order; documents with that id get the update's fields, every other document is identical |
| `OAAgent.UpdateDocAppend` | views/OAAgent.tsx:43 | updating distributes over concatenation |
| `OAAgent.UpdateOfCategory` | views/OAAgent.tsx:43 | an update that keeps categories commutes with selecting a category |
| `OAAgent.UpdateKeepsIds` | views/OAAgent.tsx:42-44 | an update that does not set the id keeps ids distinct |
| `OAAgent.UpdateKeepsLibraryShape` | views/OAAgent.tsx:42-44 | an update that sets neither category nor caption keeps the number of references and their D1..Dn numbering |
| `OAAgent.UpdateTextKeepsAttachments` | views/OAAgent.tsx:183 | editing a document's text never changes the attachments |
| `OAAgent.HandleFileUpload` | views/OAAgent.tsx:46-58 | only the target document's file changes, to the extracted payload with the type or PDF default; no pick or a non-string result changes nothing |
| `OAAgent.HasOA` | views/OAAgent.tsx:61 | ready exactly when some document in the office-action selection has text or a file; other categories never matter |
| `OAAgent.Blocks` | views/OAAgent.tsx:96 | one block `[label]:\n` plus text or `见附件` per document, in list order |
| `OAAgent.ContextText` | views/OAAgent.tsx:96 | an empty library gives an empty context, a one-document library exactly that document's block; otherwise the context opens with the first document's block |
| `OAAgent.ContextTextAppend` | views/OAAgent.tsx:96 | appending a document appends a blank line and its block to the context |
| `OAAgent.AddPriorArtContext` | views/OAAgent.tsx:96 | a new reference appears at the end of the context as its label and `见附件` |
| `OAAgent.MediaItemsOf` | views/OAAgent.tsx:97-100 | there are no more attachments than documents |
| `OAAgent.NoAttachmentsWithoutFiles` | views/OAAgent.tsx:97-100 | the attachment list is empty exactly when no document has a file |
| `OAAgent.MediaItemsOfAppend` | views/OAAgent.tsx:97-100 | attachments follow document order across concatenation |
| `OAAgent.MediaItemsOfSplitAt` | views/OAAgent.tsx:97-100 | each document's file is attached with data and type unchanged, after the files of the documents before it and before those after it |
| `OAAgent.AnalyzeCall` | views/OAAgent.tsx:61-102 | a call is made exactly when some OA document has text or a file, with the screen's system instruction, the context text, the documents' files, and thinking and search on |
| `OAAgent.AnalyzeRequest` | views/OAAgent.tsx:96-102 | the request is the context text, then one part per attached file in document order; with no file the context is the only part |
| `OAAgent.BeginAnalyze` | views/OAAgent.tsx:64-65 | before the await loading is on, the result is cleared and the library is kept |
| `OAAgent.FinishAnalyze` | views/OAAgent.tsx:103-108 | after the await loading is off and the library kept; the result is the adapter's on success and stays as it was on failure |
| `OAAgent.AnalyzeSettles` | views/OAAgent.tsx:64-108 | afterwards loading is off and the library unchanged; the result is the adapter's on success and cleared on failure |
| `OAAgent.HandleAnalyze` | views/OAAgent.tsx:60-110 | without an OA document with content nothing is sent and nothing changes; otherwise exactly one request, and the state settles from its answer |
| `DiffExpert.InitialState` | views/DiffExpert.tsx:12-17 | the screen opens idle with no result, and neither side is ready, so no comparison is offered |
| `DiffExpert.HandleFileUpload` | views/DiffExpert.tsx:19-35 | an upload for side A sets only A's file, one for side B only B's; no pick or a non-string result changes nothing |
| `DiffExpert.ReadyToCompare` | views/DiffExpert.tsx:38 | ready exactly when each side reaches the model as its own text or as its own file |
| `DiffExpert.ComparePrompt` | views/DiffExpert.tsx:50-57 | side A's shown text sits in A's slot and side B's in B's slot |
| `DiffExpert.ComparePromptSlotA` | views/DiffExpert.tsx:50-57 | with side B fixed, the prompt determines what side A shows (its text, or `见附件`) |
| `DiffExpert.ComparePromptSlotB` | views/DiffExpert.tsx:50-57 | with side A fixed, the prompt determines what side B shows |
| `DiffExpert.CompareMedia` | views/DiffExpert.tsx:60-62 | zero to two attachments, A's file first when present and B's file last when present |
| `DiffExpert.CollectMediaItems` | views/DiffExpert.tsx:60-62 | the conditional pushes produce exactly `CompareMedia` |
| `DiffExpert.CompareCall` | views/DiffExpert.tsx:38-70 | a call is made exactly when each side has text or a file, with the screen's system instruction and thinking and search on; an empty attachment list is passed as absent |
| `DiffExpert.CompareRequest` | views/DiffExpert.tsx:64-70 | the request is the prompt, then A's file, then B's file: one to three parts |
| `DiffExpert.BeginCompare` | views/DiffExpert.tsx:39 | before the await only loading changes, to on |
| `DiffExpert.FinishCompare` | views/DiffExpert.tsx:71-76 | after the await loading is off and the inputs kept; the result is the response on success and the previous one on failure |
| `DiffExpert.CompareSettles` | views/DiffExpert.tsx:71-76 | afterwards loading is off and the inputs unchanged; the result is the response (never empty) on success, and the previous result on failure |
| `DiffExpert.HandleCompare` | views/DiffExpert.tsx:37-77 | an unready comparison sends nothing and changes nothing; otherwise exactly one request, and the state settles from its answer |
| `Understander.InitialState` | views/Understander.tsx:6-9 | the screen opens idle with no analysis and nothing to analyse |
| `Understander.HandleFileUpload` | views/Understander.tsx:11-25 | an upload replaces only the stored file; no pick or a non-string result changes nothing |
| `Understander.ReadyToAnalyze` | views/Understander.tsx:28 | ready exactly when the prompt differs from the empty-text prompt or a file is loaded |
| `Understander.AnalyzePrompt` | views/Understander.tsx:40-44 | the prompt is the fixed head, the content and the fixed tail |
| `Understander.AnalyzePromptHoldsContent` | views/Understander.tsx:40-44 | the prompt holds the content verbatim: it can be read back, and different contents give different prompts |
| `Understander.AnalyzeCall` | views/Understander.tsx:28-53 | a call is made exactly when there is content or a file, with the screen's system instruction, thinking and search on, and one attachment exactly when a file is loaded |
| `Understander.AnalyzeRequest` | views/Understander.tsx:47-53 | the request is the prompt plus the loaded file's part when there is one |
| `Understander.BeginAnalyze` | views/Understander.tsx:29 | before the await only loading changes, to on |
| `Understander.FinishAnalyze` | views/Understander.tsx:54-58 | after the await loading is off and the inputs kept; the analysis is the response on success and the previous one on failure |
| `Understander.AnalyzeSettles` | views/Understander.tsx:54-58 | afterwards loading is off and the inputs unchanged; the analysis is the response on success and the previous one on failure |
| `Understander.HandleAnalyze` | views/Understander.tsx:27-60 | without content or a file nothing is sent and nothing changes; otherwise exactly one request, and the state settles from its answer |
| `Drafting.InitialState` | src/features/drafting/Drafting.tsx:6-9 | the screen opens idle with no result, no drawing attached and no call offered |
| `Drafting.HandleImageUpload` | src/features/drafting/Drafting.tsx:11-21 | a successful read stores the whole data URL; a failed read leaves the state as it was |
| `Drafting.ImageAttachments` | src/features/drafting/Drafting.tsx:43-45 | no attachment when no image is stored or its payload field is missing or empty; otherwise one `image/jpeg` attachment carrying that field |
| `Drafting.ImageAttachmentOfEncoded` | src/features/drafting/Drafting.tsx:45 | an image of any type is sent with its exact base64 payload, labelled `image/jpeg` |
| `Drafting.GeneratePrompt` | src/features/drafting/Drafting.tsx:36-40 | the prompt is the fixed head, the claims and the fixed tail |
| `Drafting.GeneratePromptHoldsClaims` | src/features/drafting/Drafting.tsx:36-40 | the prompt holds the claims verbatim: they can be read back, and different claims give different prompts |
| `Drafting.GenerateCall` | src/features/drafting/Drafting.tsx:24-45 | a call is made exactly when there are claims, with the screen's system instruction, thinking on and search off |
| `Drafting.GenerateRequest` | src/features/drafting/Drafting.tsx:45 | the request is the prompt and at most one JPEG part, with a thinking budget and no search tool |
| `Drafting.BeginGenerate` | src/features/drafting/Drafting.tsx:25-26 | before the await loading is on and the result is cleared; the inputs are kept |
| `Drafting.FinishGenerate` | src/features/drafting/Drafting.tsx:46-50 | after the await loading is off and the inputs kept; the result is the response on success and stays as it was on failure |
| `Drafting.GenerateSettles` | src/features/drafting/Drafting.tsx:25-50 | afterwards loading is off and the inputs unchanged; the result is the response on success and stays cleared on failure |
| `Drafting.HandleGenerate` | src/features/drafting/Drafting.tsx:23-52 | without claims nothing is sent and nothing changes; otherwise exactly one request, and the state settles from its answer |

## Left out

- The `GoogleGenAI` client, its construction and the `process.env.API_KEY` read. The service is the abstract `ModelsClient`, whose answers are a parameter.
- `FileReader`, `readAsDataURL` and the promise and callback scheduling. Only how a read ends is modelled: a string, a non-string result, or an error.
- Temperature 0.7 is a constant carried in the configuration. No arithmetic is done on it.
- `Date.now()` ids in `addPriorArt`: the fresh id is a parameter.
- The contents of grounding chunks (URI and title) are passed through opaque.
- The timer-driven "thinking steps" list, rendering, styling, spinners and console logging.
- The screens' remaining inline handlers: text areas setting their text, and the remove-file buttons. Each is a single assignment of one state field. The OA document edits go through `OAAgent.UpdateDoc`, including `file: undefined`, which is `FileUpdate(None)`.
- Navigation and static screens: `views/Dashboard.tsx`, `src/app/layout/Sidebar.tsx`, both `App.tsx` view switches and the navigation constants.
- Concurrency: each handler is modelled from the state it starts in. Edits made while the adapter call is pending are not modelled.
- A JavaScript run-time error in an upload callback (`.split` on a non-string reader result) is modelled as "nothing is stored", which is what the screen shows.
- `OAAgent.UpdateDoc`: a `Partial<DocItem>` whose `text`, `caption` or `id` is explicitly `undefined` is not modelled. Only `file` can be cleared, because only `file` is optional in `DocItem`.
