# LegalAi conversation pipeline, modelled in Dafny

LegalAi is a browser chat client for a hosted language model that answers
legal questions. Its logic is a small pipeline:

- the **service adapter** (services/geminiService.ts) formats the settled
  conversation into the provider's role/parts schema, builds the new turn's
  parts, strips the `data:<type>;base64,` header from attachments, consumes the
  streamed response (forwarding each text delta to a callback and collecting
  web citations), and deduplicates the citations by uri;
- the **conversation controller** (App.tsx, and its near twin
  components/LegalAI.tsx) keeps the messages, the input text, the pending
  attachment and a loading flag, and moves between them on send, chunk,
  failure, `finally`, clear, upload and remove-attachment.

The model is functional: immutable datatypes, pure functions for every
transition, and four methods with loops (the stream consumer, the whole send
handler, and the demo typewriter as intended and as written). The remote stream is an input: the chunks it
delivers and whether it ends normally or breaks off. Message ids are opaque
values passed to `Send`; the end-to-end members require them to be fresh.

Modules, one file each:

| file | module | models |
|---|---|---|
| types.dfy | `Types` | types.ts: `Role`, `Attachment`, `GroundingSource`, `Message` |
| jstext.dfy | `JsText` | JavaScript `trim` and `split` as the pipeline uses them |
| wire.dfy | `Wire` | `formatHistory`, the prefix strip, the outgoing parts |
| dedup.dfy | `Dedup` | the `findIndex` filter that makes `uniqueSources` |
| stream.dfy | `Stream` | stream chunks, the `for await` fold, `onChunk` deltas |
| controller.dfy | `Controller` | the controller state machine shared by both screens |
| app.dfy | `App` | App.tsx: its error text and end-to-end scenarios |
| legalai.dfy | `LegalAI` | components/LegalAI.tsx: its error text and the demo typewriter |

components/LegalAI.tsx lines 57-80 and 99-140 are identical in code to
App.tsx lines 57-81 and 83-127, except for the error string (App.tsx carries a
few extra comments). The `Controller` functions
therefore model both screens. Each screen module supplies its own error text.

A settled answer would be expected to receive the deduplicated citation list
that the adapter returns. In the code the controller discards the adapter's return value
(App.tsx:110-119, components/LegalAI.tsx:123-132), so no message ever gets
`groundingSources`. `Controller.ExchangeOutcome` and both `HandleSendMessage`
methods state this.

Optional fields are modelled as follows. `isError?: boolean` is a `bool`, with
`false` standing for absent. `groundingSources?` is an `Option`.

## Model

| member | source | states |
|---|---|---|
| JsText.Trim | App.tsx:84 | `text.trim()` is an infix of the text that neither starts nor ends with white space, and everything cut from either end is white space |
| JsText.TrimEmptyIffBlank | App.tsx:84 | `!text.trim()` holds exactly when every character is ECMAScript white space or a line terminator (both directions) |
| JsText.Split | services/geminiService.ts:32 | `split(',')` yields at least one field and no field contains the separator |
| JsText.JoinSplit | services/geminiService.ts:32 | joining the fields of a split with the separator restores the original string |
| JsText.SplitJoin | services/geminiService.ts:72 | splitting a join of separator-free fields returns exactly those fields (the other half of the round trip) |
| JsText.SplitWithoutSeparator | services/geminiService.ts:32 | a string without a comma splits into itself alone, so `[1]` is undefined |
| Wire.StripDataUrlPrefix | services/geminiService.ts:32 | the result is the data itself, or else the non-empty text between the data's first comma and its next comma (or its end) |
| Wire.StripFirstField | services/geminiService.ts:32 | for `h,p` followed by nothing or by `,…`, with `h` and `p` comma-free and `p` non-empty, the result is `p`, however many commas follow |
| Wire.StripDataUrl | services/geminiService.ts:72 | for `header,payload` with both parts comma-free and the payload non-empty, the result is the payload |
| Wire.StripPngDataUrl | services/geminiService.ts:72 | a concrete `data:image/png;base64,...` URL yields its base64 payload |
| Wire.StripWithoutComma | services/geminiService.ts:32 | data without a comma passes through unchanged |
| Wire.StripEmptySecondField | services/geminiService.ts:32 | an empty field after the first comma is falsy, so the data passes through unchanged |
| Wire.StripIdempotent | services/geminiService.ts:72 | stripping an already stripped payload returns it unchanged |
| Wire.RoleTag | services/geminiService.ts:42 | the wire tag is `"user"` exactly for USER and `"model"` exactly for MODEL |
| Wire.InlinePart | services/geminiService.ts:33-38 | the inline part keeps the MIME type, and its data is the stripped attachment data |
| Wire.FormatMessage | services/geminiService.ts:21-44 | the entry has a text part iff the text is non-empty, and then the text part comes first; it has an inline part iff the role is USER and an attachment is present, and then the inline part comes last; it has no other parts |
| Wire.FormatHistory | services/geminiService.ts:20-46 | the history has the same length and order as the messages, with each entry formatted from the message at the same position |
| Wire.TurnThenHistory | services/geminiService.ts:20-80 | a USER turn with an attachment is sent now as `[inline, text]` but later, as history, as `[text, inline]`; with empty text the text part is sent now and dropped later |
| Wire.FormatHistoryAppend | services/geminiService.ts:20-46 | formatting distributes over concatenation, so the history sent for a longer conversation begins with the history sent for its prefix |
| Wire.BuildRequest | services/geminiService.ts:56-84 | the request's history entry i is message i formatted, and the new turn is the inline part with the stripped data (when a file is attached) followed by the text part |
| Wire.TurnParts | services/geminiService.ts:70-80 | the new turn is `[inlineData, text]` with an attachment and `[text]` without one; the text part is present even for empty text |
| Dedup.FindIndexByUri | services/geminiService.ts:115 | `findIndex` returns the first position holding the uri, or -1 exactly when no position holds it |
| Dedup.UniqueByUri | services/geminiService.ts:115 | the deduplicated list has pairwise-distinct uris, is a subsequence of the input, keeps the input's first entry for each uri, covers every input uri, and lists the entries in the order their uris are first seen |
| Dedup.KeepFirstFromAbove | services/geminiService.ts:115 | the filter from position `i` keeps only entries whose uri is first seen at `i` or later |
| Dedup.KeepFirstFromOrdered | services/geminiService.ts:115 | the filter from position `i` lists its entries in strictly increasing order of first-seen position |
| Dedup.FilterMatchesWalk | services/geminiService.ts:115 | the `findIndex` filter equals a left-to-right walk that keeps an entry unless its uri was seen before |
| Dedup.DedupKeepsUnseen | services/geminiService.ts:115 | the walk keeps only input entries whose uri is not yet seen |
| Dedup.DedupDistinct | services/geminiService.ts:115 | the walk keeps each uri at most once |
| Dedup.DedupUris | services/geminiService.ts:115 | the kept uris are exactly the input uris not seen before the walk |
| Dedup.DedupSubsequence | services/geminiService.ts:115 | the walk deletes entries and never reorders them |
| Dedup.DedupKeepsFirst | services/geminiService.ts:115 | each kept entry is the input's first entry with its uri |
| Dedup.FirstPositionIffUnseen | services/geminiService.ts:115 | `findIndex` of an entry's uri is its own position iff the uri does not occur earlier |
| Dedup.DedupExample | services/geminiService.ts:115 | `[{t1,u1},{t2,u1},{t3,u2}]` deduplicates to `[{t1,u1},{t3,u2}]` |
| Stream.CitedSourcesComplete | services/geminiService.ts:94-104 | a source is collected from a chunk's grounding list iff some entry carries it with a truthy title and a truthy uri |
| Stream.UngroundedChunkAddsNothing | services/geminiService.ts:94-95 | a chunk without grounding metadata adds no sources |
| Stream.CollectedFromChunks | services/geminiService.ts:89-104 | a source is collected over the stream iff some chunk with grounding metadata cites it |
| Stream.DeltasAreChunkTexts | services/geminiService.ts:106-111 | there are no more deltas than chunks, no delta is empty, and every delta is the text of some chunk |
| Stream.DeltaPerTextChunk | services/geminiService.ts:106-111 | a chunk adds one delta, its text, exactly when its text is non-empty, and adds nothing otherwise |
| Stream.DeltasAppend | services/geminiService.ts:89-112 | the deltas of a stream split in two are the deltas of the first part followed by those of the second |
| Stream.ConcatAppend | services/geminiService.ts:107 | accumulating text over two runs of deltas is the concatenation of the two accumulations |
| Stream.ConsumeStream | services/geminiService.ts:86-117 | `onChunk` gets the non-empty chunk texts in stream order, and these stay delivered even if the stream breaks; the call fails iff the stream breaks; on success the text is the in-order concatenation of the delivered deltas and the sources are the collected ones deduplicated by uri |
| Stream.SalomExample | services/geminiService.ts:107 | the deltas "Sa" and "lom" accumulate to "Salom" |
| Controller.SendGuard | App.tsx:84 | a send goes ahead exactly when the early return does not fire, that is, unless the text trims to "" with no attachment, or an exchange is in flight |
| Controller.Send | App.tsx:83-105 | a failed guard changes nothing; otherwise exactly the USER message (raw text, pending attachment) and an empty MODEL placeholder are appended in that order, input and attachment are cleared, loading is set, and the exchange carries the pre-send history |
| Controller.SecondSendIgnored | App.tsx:84 | while an exchange is in flight a second send is a no-op |
| Controller.BlankTextIgnored | App.tsx:84 | text that trims to "" with no attachment never starts an exchange |
| Controller.ApplyEdit | App.tsx:116 | an edit keeps the message's id, role, attachment and citation list; appending adds the delta to the text and keeps `isError`, while the error edit sets the text to the error text and sets `isError` |
| Controller.UpdateById | App.tsx:115-117 | a map by id keeps the length, order and ids; messages without the id are unchanged; those with it are edited |
| Controller.UpdateMissingId | App.tsx:115-117 | on a list without the id, such as one just cleared, the map is the identity |
| Controller.UpdateAppendTwice | App.tsx:114-118 | appending `a` then `b` to the same id equals appending `a + b` |
| Controller.UpdateLast | App.tsx:114-123 | when only the last message has the id, only the last message is edited |
| Controller.ReceiveChunk | App.tsx:114-118 | the chunk callback appends the delta to the placeholder's text and keeps every other field of it; the other messages, the order, input, attachment and loading stay as they were |
| Controller.ReceiveAllAppendsConcat | App.tsx:114-118 | deltas applied in order append their concatenation to the placeholder and change nothing else |
| Controller.StaleChunkIgnored | App.tsx:114-118 | a chunk for an id not in the list leaves the whole state unchanged |
| Controller.FailExchange | App.tsx:120-123 | the failure branch replaces, not extends, the placeholder text with the error text and sets `isError`, keeping every other field of the placeholder; the length and the other messages stay as they were |
| Controller.Settle | App.tsx:124-126 | `finally` leaves loading false and changes nothing else |
| Controller.Clear | App.tsx:57-61 | clearing empties the messages, the attachment and the input, and leaves loading as it was |
| Controller.UploadFile | App.tsx:63-77 | a picked file replaces the attachment with its MIME type and data URL; no file changes nothing |
| Controller.RemoveAttachment | App.tsx:79-81 | removing the attachment sets it to none and changes nothing else |
| Controller.UploadThenSend | App.tsx:63-77 | when no exchange is in flight, a send after an upload always goes ahead; the turn's first part carries the file's MIME type and its data URL with the prefix stripped, while the USER message keeps the full data URL |
| Controller.RemoveThenSend | App.tsx:79-81 | after removing the attachment, text that trims to "" sends nothing; when no exchange is in flight, other text is sent as the single part `[text]` and the USER message has no attachment |
| Controller.Type | App.tsx:248 | typing sets the input text and changes nothing else |
| Controller.ExchangeOutcome | App.tsx:83-127 | with fresh ids a whole exchange appends the USER message and the placeholder. The placeholder ends with the concatenated deltas on success, or the error text with `isError` on failure, and never gets citations. Loading ends false |
| Controller.StreamIntoPlaceholder | App.tsx:107-126 | after the send, the deltas, the failure branch and `finally` touch only the trailing placeholder, and loading ends false |
| Controller.ClearMidStream | App.tsx:57-126 | after a clear mid-stream, later deltas, the failure branch and `finally` leave the list empty; the screen stays loading until `finally` |
| Controller.HandleSendMessage | App.tsx:83-127 | the send handler as one run: a guarded no-op, or a request built from the pre-send history and the new turn's parts, every emitted delta applied in order, failure handled, and loading cleared |
| App.HandleSendMessage | App.tsx:83-127 | the main screen's handler: the placeholder ends with the streamed text when the stream ends normally, or with this screen's error text and `isError` when it breaks. Input and attachment are cleared and loading ends false |
| App.TwoDeltaExchange | App.tsx:86-118 | from an empty screen, two deltas leave two messages, and the placeholder's text is the two deltas joined, not flagged as an error |
| App.LabourQuestionScenario | App.tsx:83-126 | the question "Ish beruvchim meni bo'shatdi", then deltas "Sizning " and "huquqlaringiz...", leaves the placeholder reading "Sizning huquqlaringiz..." |
| App.FailureBeforeFirstChunk | App.tsx:120-126 | a failure before any chunk leaves exactly two messages, the second showing the error text with `isError` set |
| LegalAI.HandleSendMessage | components/LegalAI.tsx:99-140 | the second screen's handler: as on the main screen, but a broken stream leaves this screen's own error text |
| LegalAI.MagicDemo | components/LegalAI.tsx:82-97 | the demo is a no-op while loading; otherwise it resets the input to "", after `k` steps the input is the prompt's first `k` characters, and it ends equal to the prompt with nothing else changed |
| LegalAI.MagicDemoAsWritten | components/LegalAI.tsx:82-97 | with each queued updater reading `i` after `i++`, the input after `k` steps is the as-written prefix, and the demo ends with the prompt minus its first character |
| LegalAI.TypedAsWrittenIsSlice | components/LegalAI.tsx:90-94 | before the last step, the as-written input after `n` steps is the prompt's characters 1 to `n` |
| LegalAI.MagicDemoAsWrittenDropsFirst | components/LegalAI.tsx:90-94 | as written, a non-empty prompt ends as `prompt[1..]`, never equal to the prompt |

## Left out

- `getClient` and the `API_KEY` lookup and caching (services/geminiService.ts:5-17) are left out. They are environment access and a singleton SDK handle. A missing key would reach the controller as an ordinary failure: a stream that breaks before its first chunk.
- `chats.create` and `sendMessageStream` are left out because they are a foreign SDK and the network. The model keeps only the request they receive (`Wire.Request`) and the stream they return (`Stream.ResponseStream`).
- The model name, the system instruction, `temperature: 0.4`, `maxOutputTokens: 4000` and the search tool are fixed provider settings with no local behaviour. The constants file that defines the model name and instruction is not part of this model.
- `console.error` and the rethrow in the adapter are left out. A failure is the `Failure` outcome of `Stream.ConsumeStream`.
- The optional `onChunk` check (services/geminiService.ts:108) is left out, because both screens always pass a callback.
- Ids come from two `Date.now()` calls (App.tsx:87 and 99). The clock is not modelled. Ids are parameters, and the end-to-end members require them to be distinct and unused.
- FileReader's asynchrony and the file input reset are left out. Only the resulting `setAttachment` is modelled, as `Controller.UploadFile`.
- Controller.UploadFile: a failed or aborted read is not modelled, because a data URL is always a string here. In the code, `onloadend` (App.tsx:67-71, components/LegalAI.tsx:67-71) also fires on a failed read and stores an attachment whose data is `null`. The guard passes, and the send fails at `attachment.data.split(',')` (services/geminiService.ts:72), so the placeholder shows the error text. The USER message with the `null` data stays in the list, so every later send fails inside `formatHistory` (services/geminiService.ts:32) until the chat is cleared.
- React effects, scrolling, textarea resizing and the disabled state of the send button are left out. The disabled state repeats the send guard.
- Interleavings of user actions with an exchange in flight are modelled for clear only, by `Controller.ClearMidStream`. Other user actions during an exchange are not modelled.
- LegalAI.MagicDemo: the `setTimeout` pacing is a plain loop. Other state changes between steps are not interleaved: each real step appends to whatever input is current.
- LegalAI.MagicDemo: it states the intended typewriter. The code reads `i` after `i++` (see "## Findings"), and that reading is modelled separately by `LegalAI.MagicDemoAsWritten`. React's eager evaluation of an updater, which on some steps reads the right index and repeats a character instead, is not modelled.
- LegalAI.MagicDemo: `DEMO_PROMPT` is a parameter, because the constants file that defines it is not part of this model.
- Strings are sequences of Unicode code points. JavaScript's UTF-16 code units (`charAt`, `length`) coincide with them only outside the astral planes.
- components/Disclaimer.tsx is left out because it is one localStorage flag, which is I/O. components/Sidebar.tsx and components/ChatMessage.tsx are left out because they are pure presentation.

## Findings

| source | as written | input that shows it | evidently intended | confidence | as-written member | corrected member |
|---|---|---|---|---|---|---|
| components/LegalAI.tsx:90-94 | `setInputValue(prev => prev + txt.charAt(i))` is followed by `i++`, and React runs the queued updater at the next render, so it reads the incremented `i` | any prompt of length at least 1, for example "ab": the input ends "b" | each step appends the next character and the input ends equal to the prompt | not executed; medium, because it rests on when React runs the updater | LegalAI.MagicDemoAsWrittenDropsFirst | LegalAI.MagicDemo |
