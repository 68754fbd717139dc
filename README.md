# Document ingestion and client state of a RAG demo, in Dafny

This project models two pieces of a retrieval-augmented-generation web application.

**The ingestion helpers of `src/lib/document-utils.ts`:**

- `extractTextFromFile` dispatches on the MIME type.
- `chunkText` splits a text into paragraphs on the blank-line pattern `/\n\s*\n/`. It packs them into a buffer joined by single spaces. When the buffer's length plus the next paragraph's length would pass 1000 UTF-16 code units (the joining space is not counted), it closes the buffer as a chunk and reseeds it with the last 20 words.
- `createDocumentsFromChunks` attaches chunk metadata.
- `storeEmbeddings` builds `document_chunks` rows with ids `<documentId>-chunk-<i>`.
- `processDocumentForRAG` runs these steps in order, up to the database insert.

**The zustand store of `src/store/index.ts`:** one application-state record (documents, chats, the current chat, insights, UI flags) and the actions that update it.

Files:

- `wrappers.dfy`: `Option`.
- `js_string.dfy`: the JavaScript string operations the source relies on.
  - `length` counts UTF-16 code units.
  - `trim` uses the ECMAScript whitespace set.
  - `split` and `join` on a one-character separator.
  - Decimal rendering of a number.
- `paragraph_split.dfy`: `text.split(/\n\s*\n/)`. This is a left-to-right scan. At each position it takes the leftmost match, where the greedy `\s*` extends to the last line feed of the whitespace run. The file proves that pieces and separators rebuild the text.
- `chunker.dfy`:
  - The loop of `chunkText` as the method `ChunkText`, proved against the fold `Accumulate` of the step function `Step`.
  - The lemmas about the chunks and the buffer.
  - The edge cases of the algorithm.
- `document_utils.dfy`: extraction, documents, rows and the ingestion pipeline.
- `store.dfy`:
  - The state record `AppState`.
  - `Action`, one constructor per action.
  - `Apply`, what an action does to the record.
  - The class `AppStore`, whose fields are overwritten by one method per action. Each method is proved to perform `Apply`.

Two behaviours of the code differ from what a reader of `chunkText` would expect, and the model follows the code:

- One might expect a text under the chunk size to be one chunk equal to the trimmed text. Instead it gives the trimmed space-join of its paragraphs: each blank line between paragraphs becomes one space. A blank text gives no chunk at all.
- One might expect an oversized first paragraph to become one oversized chunk. Instead the empty buffer is first pushed as the chunk `''`.

## Model

| member | source | states |
|---|---|---|
| JsString.JsLength | src/lib/document-utils.ts:49 | `length` of a string counts UTF-16 code units: between one and two per character; `JsString.JsLengthBmp` and `JsString.JsLengthAstral` give one unit per character up to U+FFFF and two above |
| JsString.JsLengthConcat | src/lib/document-utils.ts:49 | the length of a concatenation is the sum of the lengths |
| JsString.JsLengthAstral | src/lib/document-utils.ts:49 | for characters above U+FFFF, `length` counts two code units per character |
| JsString.JsLengthBmp | src/lib/document-utils.ts:49 | for characters of the Basic Multilingual Plane, `length` is the number of characters |
| JsString.Trim | src/lib/document-utils.ts:51 | `trim()` removes exactly the leading and trailing whitespace: the result has none at either end, is a slice of the input, and is empty exactly when the input is all whitespace |
| JsString.TrimOfTrimmed | src/lib/document-utils.ts:65 | trimming a trimmed string changes nothing, so `trim` is idempotent |
| JsString.Split | src/lib/document-utils.ts:54 | `split(' ')` gives at least one piece, and no piece contains the separator |
| JsString.JoinSplit | src/lib/document-utils.ts:54-55 | joining the pieces of a split with the separator gives the text back |
| JsString.SplitJoin | src/lib/document-utils.ts:54-55 | splitting a join of separator-free pieces gives the pieces back |
| JsString.Join | src/lib/document-utils.ts:55 | definition of `join(' ')`; its properties are in `JsString.JoinSplit`, `JsString.SplitJoin` and `JsString.JoinSnoc` |
| JsString.JoinSnoc | src/lib/document-utils.ts:55 | joining one more piece appends the separator and the piece |
| JsString.Decimal | src/lib/document-utils.ts:116 | `${i}` of a natural number is a non-empty string of digits with no leading zero, except for 0 itself |
| JsString.DecimalRoundTrip | src/lib/document-utils.ts:116 | reading back the decimal digits of `i` gives `i` |
| JsString.DecimalInjective | src/lib/document-utils.ts:116 | distinct numbers have distinct decimal renderings |
| ParagraphSplit.MatchEnd | src/lib/document-utils.ts:43 | a match of `/\n\s*\n/` found at a position is a blank line: it starts and ends with a line feed and holds only whitespace |
| ParagraphSplit.MatchEndExact | src/lib/document-utils.ts:43 | the match is exact: when none is found at a line feed, no later line feed closes a blank line from there; when one is found, `\s*` was greedy, so no line feed follows in the whitespace right after it |
| ParagraphSplit.SplitFromLaterPieces | src/lib/document-utils.ts:43 | every piece after the first starts after a greedy match, so a line feed never ends its leading whitespace |
| ParagraphSplit.GreedySeparator | src/lib/document-utils.ts:43 | `'a\n\n\nb'` splits into `['a', 'b']`: the three line feeds form one separator |
| ParagraphSplit.Paragraphs | src/lib/document-utils.ts:43 | the split always gives at least one paragraph |
| ParagraphSplit.ParagraphsRebuild | src/lib/document-utils.ts:43 | the paragraphs, interleaved with the separators the split removed, rebuild the text; every separator is a blank line; no paragraph contains a blank line; no paragraph after the first has a line feed in its leading whitespace. Every cut is leftmost: a paragraph followed by the line feed that opens its separator holds no blank line. Every cut is longest: the text after each separator has no line feed in its leading whitespace |
| ParagraphSplit.SplitFromExact | src/lib/document-utils.ts:43 | the scan cuts at the leftmost match, since a piece plus the line feed opening its separator has no blank line, and takes the longest one, since the text after each separator has no line feed in its leading whitespace |
| ParagraphSplit.ExactCutsRejectOtherSplits | src/lib/document-utils.ts:43 | these two conditions reject other cuts into blank lines: `'\n\n\n'` as `['\n', '']` is not leftmost, `'\n\n\n\n'` as `['', '', '']` is not longest |
| ParagraphSplit.SplitFromRebuilds | src/lib/document-utils.ts:43 | the scan's pieces and separators rebuild the rest of the text from the piece start |
| ParagraphSplit.SplitFromNoBlankLine | src/lib/document-utils.ts:43 | no piece the scan produces contains a blank line, because every match is cut out |
| ParagraphSplit.ParagraphsWithoutLineFeed | src/lib/document-utils.ts:43 | a text without a line feed is a single paragraph, itself |
| Chunker.ChunkText | src/lib/document-utils.ts:37-69 | the loop computes the fold `ChunkParagraphs` of the paragraphs; there are at most one more chunk than paragraphs; every chunk is trimmed |
| Chunker.Flushes | src/lib/document-utils.ts:49 | definition of the flush test at line 49; its properties are in `Chunker.Step`, `Chunker.NoFlushWhenShort` and `Chunker.FlushStep` |
| Chunker.OverlapStart | src/lib/document-utils.ts:55 | definition of `Math.max(0, words.length - overlap / 10)`; its properties are in `Chunker.OverlapTextProperties` |
| Chunker.OverlapText | src/lib/document-utils.ts:54-55 | definition of the overlap built at lines 54-55; its properties are in `Chunker.OverlapTextProperties` and `Chunker.FlushStep` |
| Chunker.Accumulate | src/lib/document-utils.ts:47-61 | definition of the loop state after a prefix of the paragraphs; its properties are in `Chunker.ChunkText`, `Chunker.AccumulateChunksTrimmed`, `Chunker.ChunksGrow` and `Chunker.BufferLayout` |
| Chunker.Step | src/lib/document-utils.ts:47-61 | one iteration never changes a pushed chunk, and it pushes exactly one chunk when the buffer's length plus the paragraph's exceeds 1000, and none otherwise |
| Chunker.Finish | src/lib/document-utils.ts:63-66 | after the loop the chunks are kept, and one non-empty chunk, the trimmed buffer, is added exactly when the buffer is not all whitespace |
| Chunker.ChunkParagraphs | src/lib/document-utils.ts:37-69 | the chunks of the paragraphs number at most one more than the paragraphs, and each is trimmed |
| Chunker.AccumulateChunksTrimmed | src/lib/document-utils.ts:47-61 | each iteration pushes at most one chunk, and every pushed chunk is trimmed |
| Chunker.ChunksShape | src/lib/document-utils.ts:47-66 | at most paragraphs + 1 chunks, each equal to its own `trim()` |
| Chunker.ChunksGrow | src/lib/document-utils.ts:47-66 | a pushed chunk is never changed: the chunks after a prefix of the paragraphs begin the final result |
| Chunker.LastChunkIsFinalBuffer | src/lib/document-utils.ts:63-65 | when the final buffer is not all whitespace, the last chunk is its trim and is non-empty |
| Chunker.DropLeadingEmptySnoc | src/lib/document-utils.ts:59 | an empty paragraph met while the buffer is still empty adds nothing; later paragraphs are appended |
| Chunker.SpaceJoinSnoc | src/lib/document-utils.ts:59 | the append branch adds a space (only if the buffer is non-empty) and the paragraph |
| Chunker.BufferLayout | src/lib/document-utils.ts:47-61 | before any flush, the buffer is the space-join of the paragraphs so far and no chunk has been pushed; after the last flush at paragraph i, the buffer is the overlap of the buffer closed there, a space, and paragraphs i.. joined by spaces in their order |
| Chunker.NoFlushWhenShort | src/lib/document-utils.ts:49-60 | if the space-join of all paragraphs fits in 1000 units, the flush never fires and the buffer is that space-join |
| Chunker.ShortParagraphsOneChunk | src/lib/document-utils.ts:47-65 | whenever the flush never fires, including buffers of 1001 units, the result is at most one chunk: the trimmed space-join of the paragraphs, or none if it is blank |
| Chunker.ShortSpaceJoinOneChunk | src/lib/document-utils.ts:47-65 | if the space-join of the paragraphs fits in 1000 units, the result is that join trimmed, or no chunk if it is blank |
| Chunker.FlushStep | src/lib/document-utils.ts:49-56 | a flush pushes the trimmed old buffer. The new buffer is the overlap, a space and the paragraph. Splitting the overlap on spaces gives exactly the last min(20, #words) words of the old buffer; the overlap is a suffix of it, preceded by the dropped words and a space when words were dropped, and it is the whole old buffer when that buffer has at most 20 words |
| Chunker.OverlapTextProperties | src/lib/document-utils.ts:54-55 | splitting the overlap on spaces gives exactly the last min(20, #words) words of the buffer; the overlap is a suffix of the buffer; when words were dropped the buffer is the dropped words, a space and the overlap; with at most 20 words it is the whole buffer |
| Chunker.ShortTextOneChunk | src/lib/document-utils.ts:37-69 | a text of at most 1000 code units gives one chunk, the trimmed space-join of its paragraphs, or none if that is blank |
| Chunker.ShortLineOneChunk | src/lib/document-utils.ts:37-69 | a text of at most 1000 code units without a line feed gives its own trim as the only chunk, or none if it is blank |
| Chunker.ChunkTextOfEmpty | src/lib/document-utils.ts:43-66 | `chunkText('')` gives no chunks |
| Chunker.AppendedBufferBound | src/lib/document-utils.ts:49-59 | after the append branch the buffer holds at most 1001 code units, one past the chunk size |
| Chunker.BufferOf1001 | src/lib/document-utils.ts:49-59 | two paragraphs of 500 units each give a 1001-unit buffer with no flush |
| Chunker.OversizedFirstParagraph | src/lib/document-utils.ts:49-51 | a first paragraph longer than 1000 units makes the first chunk `''` |
| Chunker.BlankOversizedText | src/lib/document-utils.ts:49-65 | a text of 1001 spaces gives `['']`, so the last chunk can be empty too |
| Chunker.SeededChunkUnbounded | src/lib/document-utils.ts:49-65 | a chunk seeded with overlap has no size bound: after a one-word paragraph w, a trimmed paragraph of at least 1000 units becomes the chunk `w + ' ' + paragraph`, longer than 1001 units |
| DocumentUtils.IsTextMimeType | src/lib/document-utils.ts:15 | definition of the three text MIME types of line 15; its properties are in `DocumentUtils.ExtractTextType` and `DocumentUtils.ExtractEmptyIff` |
| DocumentUtils.ExtractTextFromFile | src/lib/document-utils.ts:9-31 | a text MIME type gives the decoded text or `''`; every other type gives the placeholder for that type |
| DocumentUtils.Placeholder | src/lib/document-utils.ts:21-26 | the placeholder is the fixed head, then the MIME type, then the fixed tail text, the same for every type |
| DocumentUtils.ExtractTextType | src/lib/document-utils.ts:15-29 | plain text, Markdown and JSON return the decoded bytes exactly, or `''` when decoding throws |
| DocumentUtils.ExtractOtherType | src/lib/document-utils.ts:21-26 | every other type returns the fixed placeholder naming the type, whatever the bytes and without decoding |
| DocumentUtils.ExtractEmptyIff | src/lib/document-utils.ts:9-31 | the result is `''` exactly when a text type fails to decode or decodes to nothing |
| DocumentUtils.PlaceholderDeterminesType | src/lib/document-utils.ts:21 | the placeholder names its MIME type: equal placeholders mean equal types |
| DocumentUtils.CreateDocumentsFromChunks | src/lib/document-utils.ts:74-90 | one document per chunk, in order. Document i holds chunk i, chunk number i and the chunk count, and copies the document id, name and source unchanged |
| DocumentUtils.DocumentsRoundTrip | src/lib/document-utils.ts:82-83 | reading back the page contents of the documents gives the chunks |
| DocumentUtils.ChunkIdsDistinct | src/lib/document-utils.ts:86 | no two documents of one call share a chunk number |
| DocumentUtils.ChunkRows | src/lib/document-utils.ts:115-122 | one row per document, in order; row i has id `<documentId>-chunk-<i>`, the document id, and the document's content and metadata |
| DocumentUtils.RowId | src/lib/document-utils.ts:116 | the id is the document id, then `-chunk-`, then a run of exactly the decimal digits of i, which reads back as i |
| DocumentUtils.RowIdInjective | src/lib/document-utils.ts:116 | a row id determines both the document id and the chunk number |
| DocumentUtils.ChunkRowIdsDistinct | src/lib/document-utils.ts:115-122 | the rows of one document have pairwise distinct ids and all point back to that document |
| DocumentUtils.PrepareChunkRows | src/lib/document-utils.ts:139-168 | processing stops exactly when the extracted text is empty. Otherwise there is one row per chunk of that text, and row i holds the i-th chunk (trimmed), id `<id>-chunk-<i>`, the file's id, and metadata with the file's name and path, i and the row count |
| Store.Initial | src/store/index.ts:39-95 | definition of the initial state; its field values are stated by `Store.AppStore.constructor` |
| Store.Apply | src/store/index.ts:44-97 | each action changes only the fields it names, and `toggleSidebar` is the only action that changes `sidebarOpen`, which it always does |
| Store.WithoutDocument | src/store/index.ts:48-50 | the filter keeps a document exactly when it was there and its id differs from the removed id, and never lengthens the list |
| Store.WithMessage | src/store/index.ts:67-71 | the updated chat has the old id, title and creation time, the old messages followed by the new one, and the new update time |
| Store.ReplaceChat | src/store/index.ts:73-75 | same length; every chat with the updated chat's id becomes it, every other chat is unchanged |
| Store.AppStore.constructor | src/store/index.ts:39-95 | the store starts with no documents, chats or insights, nothing selected, every loading flag false, the sidebar open and the chat view shown |
| Store.AppStore.SetDocuments | src/store/index.ts:44 | the fields become the state `Apply` gives for `setDocuments` |
| Store.AppStore.AddDocument | src/store/index.ts:45-47 | the fields become the state `Apply` gives for `addDocument` |
| Store.AppStore.RemoveDocument | src/store/index.ts:48-50 | the fields become the state `Apply` gives for `removeDocument` |
| Store.AppStore.SetSelectedDocument | src/store/index.ts:51 | the fields become the state `Apply` gives for `setSelectedDocument` |
| Store.AppStore.SetIsUploading | src/store/index.ts:52 | the fields become the state `Apply` gives for `setIsUploading` |
| Store.AppStore.AddChat | src/store/index.ts:58-61 | the fields become the state `Apply` gives for `addChat` |
| Store.AppStore.SetChats | src/store/index.ts:62 | the fields become the state `Apply` gives for `setChats` |
| Store.AppStore.SetCurrentChat | src/store/index.ts:63 | the fields become the state `Apply` gives for `setCurrentChat` |
| Store.AppStore.AddMessageToCurrentChat | src/store/index.ts:64-81 | the fields become the state `Apply` gives for `addMessageToCurrentChat` at the given time |
| Store.AppStore.SetIsLoadingChat | src/store/index.ts:82 | the fields become the state `Apply` gives for `setIsLoadingChat` |
| Store.AppStore.SetInsights | src/store/index.ts:87 | the fields become the state `Apply` gives for `setInsights` |
| Store.AppStore.AddInsight | src/store/index.ts:88-90 | the fields become the state `Apply` gives for `addInsight` |
| Store.AppStore.SetIsLoadingInsights | src/store/index.ts:91 | the fields become the state `Apply` gives for `setIsLoadingInsights` |
| Store.AppStore.ToggleSidebar | src/store/index.ts:96 | the fields become the state `Apply` gives for `toggleSidebar` |
| Store.AppStore.SetCurrentView | src/store/index.ts:97 | the fields become the state `Apply` gives for `setCurrentView` |
| Store.AddDocumentAppends | src/store/index.ts:45-47 | `addDocument(d)` puts d at the end, keeps the earlier documents, and changes no other field |
| Store.WithoutDocumentConcat | src/store/index.ts:49 | the filter distributes over concatenation, so the kept documents stay in their original order |
| Store.WithoutAbsentDocument | src/store/index.ts:49 | removing an id no document has leaves the list as it is |
| Store.RemoveDocumentFilters | src/store/index.ts:48-50 | `removeDocument(id)` keeps exactly the documents with another id, changes no other field, and is idempotent |
| Store.AddChatSelects | src/store/index.ts:58-61 | `addChat(c)` appends c and makes it the current chat, changing nothing else, so the current chat is listed |
| Store.AddMessageWithoutChat | src/store/index.ts:64-65 | without a current chat, `addMessageToCurrentChat` changes nothing |
| Store.AddMessageUpdatesChat | src/store/index.ts:64-81 | with a current chat, the current chat gets the message appended and the new time, keeping its id, title and creation time. Every same-id chat is replaced by it and the others are untouched. The number of chats and all other fields are unchanged, and a listed current chat stays listed |
| Store.AddMessageGrowsChat | src/store/index.ts:64-81 | two messages added in turn both land in the current chat, in order |
| Store.AddInsightAppends | src/store/index.ts:88-90 | `addInsight` appends the insight and changes no other field |
| Store.ToggleSidebarTwice | src/store/index.ts:96 | `toggleSidebar` negates `sidebarOpen` alone, so toggling twice restores the state |
| Store.DocumentSettersReplaceOneField | src/store/index.ts:44-52 | `setDocuments`, `setSelectedDocument` and `setIsUploading` each replace exactly their one field |
| Store.ChatSettersReplaceOneField | src/store/index.ts:62-82 | `setChats`, `setCurrentChat` and `setIsLoadingChat` each replace exactly their one field |
| Store.InsightSettersReplaceOneField | src/store/index.ts:87-97 | `setInsights`, `setIsLoadingInsights` and `setCurrentView` each replace exactly their one field |

## Left out

- The database and storage calls go through an external client and are not modelled. These are:
  - the `insert` in `storeEmbeddings` and its success flag (src/lib/document-utils.ts:113-133);
  - `retrieveDocuments`;
  - `deleteDocumentEmbeddings`.
  - `PrepareChunkRows` therefore ends with the rows that would be inserted.
- The embedding call in `storeEmbeddings` is a foreign library call whose result the source does not use.
- The language-model and embedding clients in src/lib/langchain/chain.ts, the API route handlers and the React components are not modelled. They are network, HTTP and rendering code.
- UTF-8 decoding with `TextDecoder` is the parameter `decode`. Its result `None` stands for the exception the source catches.
- `new Date()` in `addMessageToCurrentChat` is the parameter `now`. Dates are natural numbers.
- Document and chat ids made elsewhere with `uuidv4()` are plain inputs.
- Document `size` is a JavaScript number. Here it is a natural number, because the store never computes with it.
- The `type` field of a document is named `mimeType`, because `type` is a Dafny keyword.
- `ParagraphSplit.Paragraphs`: the `\s` class is matched on whole characters. A character outside the Basic Multilingual Plane is one position, not two UTF-16 units. No whitespace character lies outside that plane, so the pieces are the same.
- Concurrent uploads, error logging to the console, and the asynchronous wrapping (`Promise`) of the helpers are not modelled.
- Store.AppStore methods: zustand's `set` merges the returned fields into the state and notifies subscribers. The model overwrites the fields directly and has no subscribers.
