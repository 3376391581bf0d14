# Audio-book backend: PDF workers, modelled in Dafny

This project models the document-processing core of an audio-book backend.
Users upload PDFs. Workers turn each PDF into cleaned HTML, then Markdown,
then plain-text chunks stored page by page for later narration.

What is modelled:

- **Status pipeline** (`workers/initiate-process.ts`). One call of
  `processPdfStage` reads a document's status and runs the stage it names.
  It then moves the document to the next status. `main` gives one such call
  to each of the oldest processable documents.
- **Text-extraction worker** (`workers/extract-pdf-text.ts`). It reads flags
  from the command line and claims a document by compare-and-set. It
  replaces the document's chunk rows, then marks the document completed or
  failed. A batch stops at the first failure.
- **Word-safe overlapping chunker** `chunkText`. The same body appears in
  both text-extraction files. The model covers the per-page rows built from
  it, and the unique index `(pdfId, pageNumber, chunkIndex)` of the chunk
  collection.
- **Two HTML cleaners**, which rebuild a page from `p` elements:
  - the span-based one in `workers/helpers-pdf-processing.ts`, with the
    cover image and the watermark filter;
  - the node-walking one in `workers/helpers/pdf-md-processsing.ts`, with
    the class-name heading detector and the temporary file paths.
- **`normalizeHtmlText`**, shared by both cleaners: its character map,
  whitespace collapse and punctuation tightening.
- **`normalizePdfText`** and **`extractPdfTextFromBuffer`**
  (`workers/helpers/pdf-text.ts`).
- **CORS middleware** (`middlewares/cors.ts`): parsing the allowed-origin
  setting, and the headers set on each request.

## How it is modelled

**Files and modules.** Each source file becomes a module. Shared pieces have
their own modules:

- `Text`: JavaScript's `\s`, `trim` and the whitespace normaliser;
- `HtmlText`: the character passes of `normalizeHtmlText`;
- `HtmlBlocks`: paragraphs, blocks and the block filter;
- `Chunker`: `chunkText`;
- `PageRows`: the per-page row builder;
- `Store`: the two collections.

**Pure code becomes functions.** String clean-ups, the chunk-window
arithmetic, tag detection and origin parsing are functions, each with lemmas
about it.

**Code that works step by step becomes methods.** The paragraph readers,
the cleaner loops, the chunk loop, the row builders and the workers are
methods. Each loop carries invariants and is proved to compute a function
whose properties are proved as lemmas.

**The database is a class.** `Store.PdfStore` holds the documents
(`map<string, Pdf>`) and the chunk rows (`seq<Row>`, with the unique index
as its invariant). The workers update it through `DeleteChunks`,
`InsertChunks` and `Put`.

**Inputs instead of I/O.** What the workers get from outside is passed in
as an argument:

- the parsed PDF, or the error that stopped the download or the parse;
- the outcome of a stage helper;
- the paragraphs the DOM library hands over;
- the clock reading;
- the environment variable.

### Behaviour of the code worth knowing

- There is no separate HTML clean-up status. The HTML clean-up runs inside
  the `processing:pdf_to_html` stage (`workers/initiate-process.ts:47-57`).
- The node-walking reader puts a space between two runs when both sides of
  the seam are `[A-Za-z0-9]` (`workers/helpers/pdf-md-processsing.ts:100`).
  The span reader never does: it adds a space only when the span itself
  began with whitespace (`workers/helpers-pdf-processing.ts:149`).
- `chunkText` clamps the size to at least 200 and the overlap to at least 0
  first, and only then rejects `overlap >= size`
  (`workers/helpers-pdf-processing.ts:272-277`). So `--chunkSize 100` with
  the default overlap of 200 runs as 200/200 and fails.
- The next start is `end - overlap`, floored at 0. With a large overlap the
  loop stops advancing (Findings, row 1).
- `.limit(0)` on a cursor sets no bound, so `--limit 0` processes every
  "uploaded" or "failed" document (`workers/extract-pdf-text.ts:232`).
- In `normalizePdfText`, every control character except `\n` becomes a
  space before the carriage-return passes run, so those passes never find a
  `\r` (`workers/helpers/pdf-text.ts:13-15`).
  `PdfText.NormalizePdfTextGuarantees` states that no `\r` survives.

## Model

| member | source | states |
|---|---|---|
| Text.Trim | workers/helpers-pdf-processing.ts:266 | `trim()` leaves no whitespace at either end, and its result is empty exactly when the input is all whitespace |
| Text.TrimStart | workers/helpers-pdf-processing.ts:146 | `replace(/^\s+/, "")` cuts off an all-whitespace prefix and keeps the rest, which is empty or starts with non-whitespace |
| Text.TrimStartConcat | workers/helpers-pdf-processing.ts:146 | the leading whitespace of a text is the leading whitespace of its first piece that is not all whitespace: text after an all-whitespace piece loses that piece, and text after a piece with ink keeps its tail |
| Text.CollapseWs | workers/helpers-pdf-processing.ts:266 | `replace(/\s+/g, " ")` is single-spaced, empty only for empty input, and starts or ends with a space exactly when the input starts or ends with whitespace; what it does to each run is stated by the three lemmas below |
| Text.CollapseWsConcat | workers/helpers-pdf-processing.ts:266 | cut where no whitespace run is split, the collapse of the text is the collapse of the two pieces laid end to end |
| Text.CollapseWsRun | workers/helpers-pdf-processing.ts:266 | a whitespace run, whatever its length, becomes exactly one space |
| Text.CollapseWsBetween | workers/helpers-pdf-processing.ts:266 | a whitespace run between two non-whitespace characters becomes exactly one space and the text on each side is collapsed on its own |
| Text.TrimAround | workers/helpers-pdf-processing.ts:266 | `trim()` of whitespace, text with ink at both ends, whitespace gives that text |
| Text.TrimJoin | workers/helpers-pdf-processing.ts:266 | trimming two pieces joined by one space trims each piece and keeps the space |
| Text.NormalizeWhitespaceBetween | workers/helpers-pdf-processing.ts:266 | `normalizeExtractedText` turns a whitespace run between two non-whitespace characters into one space and normalises each side on its own |
| Text.NormalizedJoin | workers/helpers-pdf-processing.ts:325-327 | two normalised non-empty texts joined by one space are normalised |
| Text.TrimSlice | workers/helpers-pdf-processing.ts:266 | the trimmed string is a slice of the input, with only whitespace cut off at either end |
| Text.NormalizeWhitespaceNormalized | workers/helpers-pdf-processing.ts:266 | `normalizeExtractedText` yields single spaces and no whitespace at either end |
| Text.NormalizeWhitespaceFixesNormalized | workers/helpers-pdf-processing.ts:266 | normalised text is left unchanged |
| Text.NormalizeWhitespaceIdempotent | workers/extract-pdf-text.ts:32 | normalising twice gives the same as normalising once |
| Text.NormalizeWhitespacePreservesText | workers/extract-pdf-text.ts:32 | the normaliser changes only whitespace: the other characters survive, in order |
| Text.NormalizeWhitespaceEmpty | workers/helpers-pdf-processing.ts:269-270 | text normalises to "" exactly when it is blank, which is when `chunkText` returns no chunks |
| Text.TrimKeepsStart | workers/helpers-pdf-processing.ts:292 | trimming a string that starts with non-whitespace keeps its start |
| Text.TrimKeepsEnd | workers/helpers-pdf-processing.ts:292 | trimming a string that ends with non-whitespace keeps its end |
| Text.LastIndexOf | workers/helpers-pdf-processing.ts:288 | `lastIndexOf(c)` is -1 or a position holding `c`, with no `c` after it |
| Text.Lower | workers/helpers-pdf-processing.ts:225 | `toLowerCase()` keeps the length and lower-cases character by character |
| HtmlBlocks.DropDots | workers/helpers/pdf-md-processsing.ts:173 | `replace(/\./g, "")` leaves no dot and makes the text no longer; the two lemmas below say it removes exactly the dots |
| HtmlBlocks.DropDotsConcat | workers/helpers/pdf-md-processsing.ts:173 | dropping dots acts piece by piece: on two pieces end to end it is the two results end to end |
| HtmlBlocks.DropDotsOne | workers/helpers/pdf-md-processsing.ts:173 | a single character is deleted exactly when it is a dot |
| HtmlBlocks.DotsOnlyChars | workers/helpers/pdf-md-processsing.ts:173 | the "only dots" test holds exactly when every character is a dot or whitespace |
| HtmlBlocks.DropDotsAllWs | workers/helpers/pdf-md-processsing.ts:173 | after dropping dots the text is blank exactly when it held only dots and whitespace |
| HtmlBlocks.WatermarkedShort | workers/helpers-pdf-processing.ts:236 | the two watermark patterns together match exactly when "oceanofpd" occurs, ignoring case |
| HtmlBlocks.KeepBlocks | workers/helpers-pdf-processing.ts:233-238 | a block is kept exactly when its text is non-empty, not only dots, and (for the span cleaner) free of the watermark |
| HtmlText.MapChar | workers/helpers-pdf-processing.ts:159-162 | NBSP (and, in the node cleaner, every control character) becomes one space; soft hyphen, U+200B-U+200D and BOM (and, in the node cleaner, U+FFFD) are deleted; any other character stays |
| HtmlText.MapChars | workers/helpers-pdf-processing.ts:159-162 | the character replaces never lengthen the text and leave no character they would change |
| HtmlText.MapCharsConcat | workers/helpers/pdf-md-processsing.ts:113-118 | the replaces act character by character: the map of two pieces laid end to end is the two maps, in order |
| HtmlText.MapCharsOne | workers/helpers/pdf-md-processsing.ts:113-118 | on one character the replaces do what `MapChar` says |
| HtmlText.MapCharsFixesUntouched | workers/helpers/pdf-md-processsing.ts:113-118 | text without a mapped character is unchanged |
| HtmlText.MapCharsIdempotent | workers/helpers/pdf-md-processsing.ts:113-118 | mapping twice changes nothing more |
| HtmlText.DropWsBefore | workers/helpers-pdf-processing.ts:167 | `replace(/\s+([,.;:!?])/g, "$1")` removes only whitespace and keeps a non-blank first character; what it removes is stated by the two lemmas below |
| HtmlText.DropWsBeforeConcat | workers/helpers-pdf-processing.ts:167 | cut after a non-whitespace character, the replace acts on each piece on its own |
| HtmlText.DropWsBeforeRun | workers/helpers-pdf-processing.ts:167 | a whitespace run goes exactly when a mark follows it, and stays whole otherwise |
| HtmlText.DropWsBeforeTight | workers/helpers-pdf-processing.ts:167 | after the replace, no whitespace stands before a punctuation mark |
| HtmlText.DropWsBeforeFixes | workers/helpers-pdf-processing.ts:167 | text with no whitespace before a mark is unchanged |
| HtmlText.DropWsBeforeIdempotent | workers/helpers-pdf-processing.ts:169 | the replace is idempotent, for the punctuation pattern and the closing-bracket pattern alike |
| HtmlText.DropWsAfterOpener | workers/helpers-pdf-processing.ts:168 | `replace(/([([{])\s+/g, "$1")` removes only whitespace and keeps the first character; what it removes is stated by the two lemmas below |
| HtmlText.DropWsAfterOpenerConcat | workers/helpers-pdf-processing.ts:168 | cut where no opener and the whitespace after it are split, the replace acts on each piece on its own |
| HtmlText.DropWsAfterOpenerRun | workers/helpers-pdf-processing.ts:168 | the whitespace run after a character goes exactly when that character is an opening bracket |
| HtmlText.DropWsAfterOpenerTight | workers/helpers-pdf-processing.ts:168 | after the replace, no whitespace follows an opening bracket |
| HtmlText.DropWsAfterOpenerFixes | workers/helpers-pdf-processing.ts:168 | text with no whitespace after an opener is unchanged |
| HtmlText.DropWsAfterOpenerIdempotent | workers/helpers-pdf-processing.ts:168 | the replace is idempotent |
| HtmlText.DropWsAfterOpenerKeeps | workers/helpers-pdf-processing.ts:166-168 | removing space after openers cannot put whitespace back before a mark |
| HtmlText.DropWsBeforeKeeps | workers/helpers-pdf-processing.ts:166-169 | removing space before closers keeps what the first two replaces established |
| HtmlText.AposMatch | workers/helpers-pdf-processing.ts:170 | the apostrophe pattern matches an apostrophe, a whitespace run and a lower-case letter, and says why it does not match when it does not |
| HtmlText.JoinAposLower | workers/helpers-pdf-processing.ts:170 | `replace(/([â€™'])\s+([a-z])/g, "$1$2")`, whose class is the four characters â, €, ™ and ', removes only whitespace and keeps the first character; what it removes is stated by the three lemmas below |
| HtmlText.JoinAposLowerConcat | workers/helpers-pdf-processing.ts:170 | cut where no match is split, the replace acts on each piece on its own |
| HtmlText.JoinAposLowerJoins | workers/helpers-pdf-processing.ts:170 | one match, an apostrophe, a whitespace run and a lower-case letter, loses exactly its whitespace |
| HtmlText.JoinAposLowerNoMatch | workers/helpers-pdf-processing.ts:170 | text where the pattern matches at no position is unchanged |
| HtmlText.JoinAposLowerTight | workers/helpers-pdf-processing.ts:170 | afterwards no apostrophe, whitespace, lower-case letter remains in a row |
| HtmlText.JoinAposLowerKeepsBefore | workers/helpers-pdf-processing.ts:166-170 | the apostrophe join keeps "no whitespace before a mark" |
| HtmlText.JoinAposLowerKeepsOpener | workers/helpers-pdf-processing.ts:166-170 | the apostrophe join keeps "no whitespace after an opener" |
| HtmlText.JoinAposLowerFixes | workers/helpers-pdf-processing.ts:170 | single-spaced text with nothing to join is unchanged |
| HtmlText.Tighten | workers/helpers-pdf-processing.ts:166-170 | after the four replaces in order, all four tightness properties hold at once and only whitespace was removed |
| HtmlText.NormalizeHtmlTextNormalized | workers/helpers-pdf-processing.ts:156-186 | whatever the letter-run heuristics do, `normalizeHtmlText` returns single-spaced text with nothing at either end |
| HtmlText.NormalizeHtmlTextKeepsText | workers/helpers/pdf-md-processsing.ts:110-142 | without the heuristics, the output keeps exactly the non-whitespace characters of the mapped input, and no mapped-away character reaches it |
| MdProcessing.BlankSeam | workers/helpers/pdf-md-processsing.ts:87-90 | a blank node adds one space exactly when the text is non-empty and does not end in a space, else nothing |
| MdProcessing.NodeSeam | workers/helpers/pdf-md-processsing.ts:92-102 | one space goes before a node exactly when the text is non-empty, does not end in a space, and the node began with whitespace or both sides of the seam are `[A-Za-z0-9]`; else nothing |
| MdProcessing.NodeFoldSpacesAlnum | workers/helpers/pdf-md-processsing.ts:96-104 | a node starting with a letter or digit, read after text ending in one, is set off by exactly one space |
| MdProcessing.NodeFoldSpacesWs | workers/helpers/pdf-md-processsing.ts:92-104 | a node starting with whitespace, read after text not ending in a space, gets exactly one space and loses its leading whitespace |
| MdProcessing.NodeFoldGlues | workers/helpers/pdf-md-processsing.ts:96-104 | any other node that starts without whitespace is appended with no space |
| MdProcessing.NodeStepGlues | workers/helpers/pdf-md-processsing.ts:96-104 | the same for one step of the reader |
| MdProcessing.ReadNodes | workers/helpers/pdf-md-processsing.ts:75-108 | the node-by-node reader returns the fold of the node steps, or the element's whole text when that fold is empty |
| MdProcessing.NodeStepText | workers/helpers/pdf-md-processsing.ts:79-105 | one node adds exactly its own non-whitespace characters |
| MdProcessing.NodeFoldText | workers/helpers/pdf-md-processsing.ts:79-105 | the reader keeps every non-whitespace character of the nodes, in order |
| MdProcessing.NodeFoldEmpty | workers/helpers/pdf-md-processsing.ts:85-107 | the nodes join to "" (and the fallback is taken) exactly when every node is blank |
| MdProcessing.NodeFoldShape | workers/helpers/pdf-md-processsing.ts:92-104 | the joined text never starts with whitespace and adds no double space of its own |
| MdProcessing.InferTag | workers/helpers/pdf-md-processsing.ts:144-156 | `h1`..`h4` for the lowest level whose pattern or "heading-d" occurs; else `h2` for the bare word "heading"; else `p` (each tag as an if-and-only-if) |
| MdProcessing.InferTagIgnoresCase | workers/helpers/pdf-md-processsing.ts:145 | lower-casing the class first changes nothing |
| MdProcessing.InferTagNeedsHeading | workers/helpers/pdf-md-processsing.ts:148-153 | a class without "heading" is a paragraph |
| MdProcessing.CleanBlocks | workers/helpers/pdf-md-processsing.ts:166-176 | every block kept has non-empty text that is not only dots |
| MdProcessing.CleanBlocksComplete | workers/helpers/pdf-md-processsing.ts:171-175 | a paragraph whose text passes both tests is kept |
| MdProcessing.CleanupHtml | workers/helpers/pdf-md-processsing.ts:158-188 | the cleaner loop returns the filtered blocks in document order |
| MdProcessing.ReadBlock | workers/helpers/pdf-md-processsing.ts:167-171 | one element gives its inferred tag and its normalised text |
| MdProcessing.DirName | workers/helpers/pdf-md-processsing.ts:191 | `path.dirname` is "." for a path without "/", "/" for one whose only "/" leads it, and otherwise the text before the last "/" |
| MdProcessing.DirNameJoin | workers/helpers/pdf-md-processsing.ts:191 | the directory of a file name joined under a directory is that directory |
| MdProcessing.ConvertPathsCleanedUp | workers/helpers/pdf-md-processsing.ts:59-62 | with the document id as job id, the two files `convertPdfToHtml` writes are exactly the two files `cleanupTempHtmlFiles` removes |
| PdfProcessing.SpanSeam | workers/helpers-pdf-processing.ts:145-150 | one space goes before a span exactly when the span began with whitespace and the text is non-empty and does not end in a space; else nothing |
| PdfProcessing.SpanFoldGlues | workers/helpers-pdf-processing.ts:145-151 | a span that starts without whitespace is appended with no space, even between two letters |
| PdfProcessing.SpanFoldSpaces | workers/helpers-pdf-processing.ts:145-151 | a span starting with whitespace, read after text not ending in a space, gets exactly one space and loses its leading whitespace |
| PdfProcessing.ReadSpans | workers/helpers-pdf-processing.ts:135-154 | the span-by-span reader returns the element's text when it has no spans, else the fold of the span steps |
| PdfProcessing.SpanStepText | workers/helpers-pdf-processing.ts:141-151 | one span adds exactly its own non-whitespace characters |
| PdfProcessing.SpanFoldText | workers/helpers-pdf-processing.ts:141-153 | the reader keeps every non-whitespace character of the spans, in order |
| PdfProcessing.SpanFoldEmpty | workers/helpers-pdf-processing.ts:141-153 | the spans join to "" exactly when every span is blank |
| PdfProcessing.SpanFoldShape | workers/helpers-pdf-processing.ts:145-150 | the joined text never starts with whitespace and adds no double space of its own |
| PdfProcessing.SpanTag | workers/helpers-pdf-processing.ts:225-231 | a heading tag only when its "heading-d" occurs in the lower-cased class, and `p` exactly when none of the four does |
| PdfProcessing.SpanTagFirstLevel | workers/helpers-pdf-processing.ts:228-231 | the chosen level is never above a level that is present |
| PdfProcessing.SpanHeadingIsHeading | workers/helpers-pdf-processing.ts:225-231 | a class the span cleaner reads as a heading is a heading to the node-walking detector too, and both agree on `h1` |
| PdfProcessing.FirstDataImage | workers/helpers-pdf-processing.ts:216-219 | the cover is the first `img` source that is a `data:image/` URL, and none exactly when no source is |
| PdfProcessing.CleanSpanBlocks | workers/helpers-pdf-processing.ts:233-238 | every block kept is non-empty, not only dots, and carries no watermark |
| PdfProcessing.CleanSpanBlocksComplete | workers/helpers-pdf-processing.ts:233-238 | a paragraph whose text passes all three tests is kept |
| PdfProcessing.CleanupHtml | workers/helpers-pdf-processing.ts:205-259 | the cleaner returns the cover image and the filtered span blocks in document order |
| PdfProcessing.ReadSpanBlock | workers/helpers-pdf-processing.ts:225-233 | one element gives its class tag and its normalised text |
| PdfProcessing.JoinWords | workers/helpers-pdf-processing.ts:325-327 | `items.join(" ")` is "" for no items, the item itself for one, and keeps every non-whitespace character of the items, in order |
| PdfProcessing.JoinWordsConcat | workers/helpers-pdf-processing.ts:325-327 | the items of two non-empty lists are joined with exactly one space between the two lists |
| PdfProcessing.JoinWordsNormalized | workers/helpers-pdf-processing.ts:325-327 | non-empty normalised items join to a normalised text |
| PdfProcessing.PageTexts | workers/helpers-pdf-processing.ts:320-336 | one text per page, each normalised and holding exactly the non-whitespace characters of that page's items, in order |
| PdfProcessing.PageTextOfWords | workers/helpers-pdf-processing.ts:325-327 | the text of a page of non-empty normalised items is exactly those items joined by single spaces |
| PdfProcessing.ExtractAndStorePdfText | workers/helpers-pdf-processing.ts:339-381 | "not found" without touching the rows; otherwise the document's old rows are gone in every outcome, and on success its new rows are appended and the page and chunk counts returned |
| Chunker.EffectiveSize | workers/helpers-pdf-processing.ts:272 | the size used is the one asked for from 200 up, and exactly 200 below that |
| Chunker.EffectiveOverlap | workers/helpers-pdf-processing.ts:273 | the overlap used is a non-negative request, and exactly 0 for a negative one |
| Chunker.SnapReach | workers/helpers-pdf-processing.ts:286 | the snap zone starts strictly inside the window |
| Chunker.LastSpaceAfter | workers/helpers-pdf-processing.ts:286-289 | the snap point is a space strictly inside the zone with no space after it, or -1 |
| Chunker.WindowEnd | workers/helpers-pdf-processing.ts:283-290 | a window is non-empty, no longer than the size, ends before the text end exactly when the size does not reach it, and then ends past the snap reach |
| Chunker.WindowEndSnaps | workers/helpers-pdf-processing.ts:285-290 | the window end is the last space of the snap zone when there is one, else the full window |
| Chunker.NextStart | workers/helpers-pdf-processing.ts:296 | the corrected next start is `end - overlap` when that moves forward, else one past the start |
| Chunker.Windows | workers/helpers-pdf-processing.ts:282-297 | the corrected loop's windows start at `start`, end at the text end, and each is a `WindowEnd` window |
| Chunker.WindowsChain | workers/helpers-pdf-processing.ts:295-296 | each next window starts after the previous one's start and no later than its end |
| Chunker.WindowsAt | workers/helpers-pdf-processing.ts:282-297 | the k-th window ends where `WindowEnd` puts it, and it is the last one exactly when it reaches the text end |
| Chunker.Pieces | workers/helpers-pdf-processing.ts:292 | one trimmed slice per window |
| Chunker.NonEmpty | workers/helpers-pdf-processing.ts:293 | `if (chunk) chunks.push(chunk)` keeps only non-empty chunks |
| Chunker.ChunkTextSpec | workers/helpers-pdf-processing.ts:268-300 | blank text gives no chunks; the error is raised exactly for non-blank text with clamped overlap >= clamped size, and carries both clamped values |
| Chunker.AsWrittenNeverStops | workers/helpers-pdf-processing.ts:296 | as written, size 200 and overlap 150 on a 300-character text with one space at 121 never terminate, for any number of rounds |
| Chunker.StallsFromZero | workers/helpers-pdf-processing.ts:295-296 | once the first window snaps back to 121, the as-written start returns to 0 on every round |
| Chunker.AsWrittenAgreesLoop | workers/helpers-pdf-processing.ts:282-297 | when the overlap does not exceed the snap reach, the as-written windows equal the corrected ones |
| Chunker.AsWrittenAgrees | workers/extract-pdf-text.ts:34-66 | under the same bound (the defaults 1600/200 meet it), the source's `chunkText` and the corrected one give the same result |
| Chunker.WindowNotBlank | workers/helpers-pdf-processing.ts:292-293 | in normalised text no window is blank |
| Chunker.NonEmptyKeepsAll | workers/helpers-pdf-processing.ts:293 | when no piece is empty, every piece is pushed |
| Chunker.ChunksAreTrimmedWindows | workers/helpers-pdf-processing.ts:292-293 | on normalised text the chunks are exactly the trimmed windows, one per window |
| Chunker.TrimmedSliceShape | workers/helpers-pdf-processing.ts:292 | a trimmed window is itself a slice of the text |
| Chunker.ChunkPiece | workers/helpers-pdf-processing.ts:283-292 | every chunk is non-empty, trimmed, no longer than the size and a piece of the text |
| Chunker.FirstChunkStarts | workers/helpers-pdf-processing.ts:292 | the first chunk is a prefix of the normalised text |
| Chunker.LastChunkEnds | workers/helpers-pdf-processing.ts:292 | the last chunk is a suffix of the normalised text |
| Chunker.ChunksOfWellFormed | workers/helpers-pdf-processing.ts:282-297 | chunks of windows covering the text are well formed: the first starts the text, the last ends it, each is a bounded piece of it |
| Chunker.ChunkLoopWellFormed | workers/helpers-pdf-processing.ts:282-297 | the corrected loop's output on normalised text is well formed |
| Chunker.ChunkTextWellFormed | workers/helpers-pdf-processing.ts:268-300 | every successful result of the corrected `chunkText` is well formed with respect to the normalised text |
| Chunker.ChunkText | workers/helpers-pdf-processing.ts:268-300 | the method computes `ChunkTextSpec` |
| Chunker.ChunkLoop | workers/helpers-pdf-processing.ts:282-297 | the window loop emits the non-empty trimmed windows of the corrected window sequence |
| PageRows.RowsForPage | workers/helpers-pdf-processing.ts:366-375 | one row per chunk of the page |
| PageRows.PageResults | workers/helpers-pdf-processing.ts:363-365 | one chunking outcome per page |
| PageRows.IncreasingKeysAreUnique | models/pdfTextChunk.ts:15 | rows in increasing (page, chunk index) order never clash on the unique index |
| PageRows.RowsOfShape | workers/helpers-pdf-processing.ts:363-376 | a successful build tags every row with its pdf, user, page number and text length, keeps increasing unique keys, and has one row per chunk |
| PageRows.RowsOfPage | workers/helpers-pdf-processing.ts:363-376 | after a build, the rows of page p + 1 are exactly that page's chunks with indexes 0, 1, … |
| PageRows.RowsOfErr | workers/helpers-pdf-processing.ts:365 | the build fails exactly when some page fails, and then with the error of the first page that fails |
| PageRows.ErrSticks | workers/helpers-pdf-processing.ts:365 | once a page fails, later pages do not change the outcome |
| PageRows.PageRowsErr | workers/helpers-pdf-processing.ts:275-277 | over real pages the build fails exactly when a page is non-blank and the clamped overlap is not below the clamped size |
| PageRows.BlankPageNoRows | workers/helpers-pdf-processing.ts:269-270 | a blank page contributes no rows |
| PageRows.BuildPageRows | workers/helpers-pdf-processing.ts:363-376 | the nested `forEach` computes the per-page build, stopping at the first error |
| PageRows.PushPageRows | workers/extract-pdf-text.ts:183-192 | the inner `forEach` appends one row per chunk, in order |
| Store.WithoutPdf | workers/helpers-pdf-processing.ts:349 | `deleteMany({ pdfId })` keeps exactly the rows of other documents |
| Store.ReplaceRows | workers/extract-pdf-text.ts:166-197 | after the delete and the append, the document's rows are the new ones and other documents' rows are unchanged |
| Store.DeleteRows | workers/extract-pdf-text.ts:166 | after the delete the document has no rows and other documents keep theirs |
| Store.FilterKeepsKeysDistinct | models/pdfTextChunk.ts:15 | deleting rows cannot break the unique index |
| Store.InsertKeepsKeysDistinct | models/pdfTextChunk.ts:15 | the unique index holds after every unordered insert |
| Store.AllFreshSnoc | workers/helpers-pdf-processing.ts:378 | one more row has a fresh key exactly when neither the existing rows nor the rows before it hold that key |
| Store.InsertFresh | workers/helpers-pdf-processing.ts:378 | an unordered insert succeeds, appending every row, exactly when no new key clashes with another new key or an existing one |
| Store.ReplaceRowsFits | workers/helpers-pdf-processing.ts:349-378 | once a document's rows are deleted, inserting its fresh rows cannot trip the unique index |
| Store.OldestExists | workers/extract-pdf-text.ts:230-231 | a non-empty set of candidates has an oldest one |
| Store.PdfStore.DeleteChunks | workers/helpers-pdf-processing.ts:349 | the rows become `WithoutPdf` of the old rows; the index invariant is kept |
| Store.PdfStore.InsertChunks | workers/helpers-pdf-processing.ts:378 | the rows and the success flag are those of the unordered insert; the index invariant is kept |
| Store.PdfStore.Put | workers/extract-pdf-text.ts:199-210 | one document is replaced and nothing else changes |
| Store.CursorLimit | workers/extract-pdf-text.ts:232 | `.limit(n)` sets no bound exactly when `n` is 0, and otherwise a bound of the absolute value of `n` |
| Store.UnlimitedTakesAll | workers/extract-pdf-text.ts:230-232 | without a bound the query returns every eligible document |
| Store.TakeOldest | workers/extract-pdf-text.ts:230-231 | taking the oldest document left keeps the ids eligible, distinct and oldest first |
| Store.TakingDone | workers/extract-pdf-text.ts:230-232 | once the bound is reached or nothing is left, the ids taken are the query's answer |
| Store.PdfStore.SelectOldest | workers/extract-pdf-text.ts:230-234 | the ids are eligible, distinct, oldest first and within the bound when there is one; an eligible document is left out only when the bound was reached, by ids none of them younger than it |
| ExtractWorker.IndexOf | workers/extract-pdf-text.ts:19 | `indexOf` is -1 exactly when the flag is absent, else the first position holding it |
| ExtractWorker.GetValue | workers/extract-pdf-text.ts:18-22 | the token after the first occurrence of the flag; nothing when the flag is absent or last |
| ExtractWorker.GetValueFirstWins | workers/extract-pdf-text.ts:18-22 | a later repetition of a flag never overrides the first |
| ExtractWorker.ParseArgs | workers/extract-pdf-text.ts:24-29 | `--pdfId` as given; `--limit`, `--chunkSize` and `--chunkOverlap` default to "10", "1600" and "200" |
| ExtractWorker.Decimal | workers/extract-pdf-text.ts:42 | the number in the error message is written with decimal digits only |
| ExtractWorker.DecimalRoundTrip | workers/extract-pdf-text.ts:42 | the digits read back give the number |
| ExtractWorker.Claim | workers/extract-pdf-text.ts:153-159 | an "uploaded" or "failed" document becomes "processing" with its error cleared; any other is not found and nothing changes |
| ExtractWorker.AttemptRowsTagged | workers/extract-pdf-text.ts:180-193 | the rows a successful attempt builds all belong to the document and have distinct keys |
| ExtractWorker.ProcessStepFrame | workers/extract-pdf-text.ts:161-220 | `processPdf` touches one document and its rows only; an unclaimable document is skipped with no change |
| ExtractWorker.ProcessStepOutcome | workers/extract-pdf-text.ts:199-218 | success leaves the document "completed" with its chunk count equal to its row count, so a rerun skips it; failure leaves it "failed" with the message, without rows, and claimable again |
| ExtractWorker.ProcessPdf | workers/extract-pdf-text.ts:161-220 | the method computes `ProcessStep` on the store and keeps the unique index |
| ExtractWorker.BuildRows | workers/extract-pdf-text.ts:168-193 | the try block's row building: the attempt's result, with rows of this document and distinct keys |
| ExtractWorker.ProcessListed | workers/extract-pdf-text.ts:244 | one turn of the batch: other documents unchanged, skip without change, "completed" on success, "failed" with the message on error |
| ExtractWorker.SelectIds | workers/extract-pdf-text.ts:228-234 | the named document if it exists, else the oldest "uploaded" or "failed" ones within the cursor limit, without repeats; with `--limit 0` exactly the claimable documents |
| ExtractWorker.TurnDone | workers/extract-pdf-text.ts:241-245 | a turn that does not fail leaves its document completed or, if never claimable, untouched, and nothing else changes |
| ExtractWorker.TurnFailed | workers/extract-pdf-text.ts:241-255 | a failing turn leaves its document failed with a message, the ones before it completed or skipped, and the ones after it untouched |
| ExtractWorker.RunFinished | workers/extract-pdf-text.ts:241-258 | a run through every id leaves each completed or skipped, and every other document untouched |
| ExtractWorker.RunExtraction | workers/extract-pdf-text.ts:222-258 | exit code 0 means every selected document is completed or was skipped; 1 means the run stopped at a document now "failed" with a message, after which no selected document was touched; unselected and unclaimable documents are unchanged |
| Pipeline.StageOf | workers/initiate-process.ts:47-81 | a status has a stage exactly when it is one of the six processable statuses |
| Pipeline.Remaining | workers/initiate-process.ts:47-78 | at most three stages remain, and none exactly at "completed" |
| Pipeline.ProcessPdfStage | workers/initiate-process.ts:43-83 | the method computes `StageStep` on the documents and leaves the chunk rows alone |
| Pipeline.StageStepFrame | workers/initiate-process.ts:43-83 | a call changes at most the named document, and nothing on an error or when done |
| Pipeline.StageOnTable | workers/initiate-process.ts:47-81 | the transition table: "completed" is done; a processable status whose helper finishes moves to its stage's next status ("failed" restarts at the first stage); any other status is an "Invalid status" error; errors change nothing |
| Pipeline.StageOnAdvances | workers/initiate-process.ts:47-78 | a call whose helper finishes takes a known status one stage closer to "completed" |
| Pipeline.RunStages | workers/initiate-process.ts:43-83 | repeated calls keep the set of documents |
| Pipeline.StagesComplete | workers/initiate-process.ts:47-78 | from any known status, calls whose helpers all finish reach "completed" within three calls, and every call after that reports done |
| Pipeline.ExtractStageRecordsPages | workers/helpers/pdf-text.ts:117-119 | the text-extraction stage completes the document and records the parser's page count, keeping the old one when the parser gave none |
| Pipeline.HtmlStageReadsConverted | workers/initiate-process.ts:60 | the Markdown stage reads the cleaned file the first stage wrote under the document's id |
| Pipeline.InitiateBatch | workers/initiate-process.ts:86-112 | the oldest processable documents, at most 10, each take exactly their own step; errors do not stop the batch; others are unchanged |
| Cors.FirstIndex | middlewares/cors.ts:16 | the first position of the separator, or -1 exactly when absent |
| Cors.Split | middlewares/cors.ts:16 | `split(",")` gives at least one piece and no piece holds a comma |
| Cors.SplitJoin | middlewares/cors.ts:16 | joining the pieces back gives the original string |
| Cors.JoinSplit | middlewares/cors.ts:16 | splitting a join of comma-free pieces gives the pieces back |
| Cors.TrimNoComma | middlewares/cors.ts:17 | trimming a comma-free piece keeps it comma-free |
| Cors.EntriesExact | middlewares/cors.ts:15-18 | the entries are the non-empty trimmed pieces, in order |
| Cors.EntriesClean | middlewares/cors.ts:15-18 | every entry is non-empty, comma-free and trimmed |
| Cors.ParseAllowedOrigins | middlewares/cors.ts:11-19 | unset or "" gives the localhost default; "*" after trimming gives the wildcard; otherwise the entries of the trimmed setting |
| Cors.ParseListed | middlewares/cors.ts:11-19 | every listed origin is a clean entry |
| Cors.EntriesJoin | middlewares/cors.ts:15-18 | writing clean entries with commas and reading them back gives them back |
| Cors.CleanEntriesKept | middlewares/cors.ts:17-18 | trimming clean entries and dropping empty ones keeps them all |
| Cors.ParseWritten | middlewares/cors.ts:11-19 | a setting written as a comma list of clean origins (other than a lone "*") parses back to exactly that list |
| Cors.AllowOrigin | middlewares/cors.ts:25-30 | "*" under the wildcard; otherwise the request's origin exactly when it is non-empty and listed |
| Cors.CorsHeadersMeaning | middlewares/cors.ts:25-36 | only CORS headers are set; Allow-Origin and Vary go together outside the wildcard; methods always; requested headers echoed, else the defaults |
| Cors.CorsMiddleware | middlewares/cors.ts:21-43 | the response gains exactly those headers; `next` is called exactly when the method is not OPTIONS, which otherwise ends with 204 |
| PdfText.MapChar | workers/helpers/pdf-text.ts:9-13 | a character is kept as it is exactly when no replace touches it; NBSP and every control character but `\n` become one space; soft hyphen, U+200B-U+200D, BOM and U+FFFD are deleted |
| PdfText.MapPdfChars | workers/helpers/pdf-text.ts:9-13 | the first five replaces leave no character they would change |
| PdfText.MapPdfCharsConcat | workers/helpers/pdf-text.ts:9-13 | the replaces act character by character: the map of two pieces laid end to end is the two maps, in order |
| PdfText.MapPdfCharsOne | workers/helpers/pdf-text.ts:9-13 | on one character the replaces do what `MapChar` says |
| PdfText.MapPdfCharsFixes | workers/helpers/pdf-text.ts:9-13 | clean text is unchanged |
| PdfText.CrToLfFixes | workers/helpers/pdf-text.ts:15 | the carriage-return passes change nothing on mapped text |
| PdfText.JoinHyphens | workers/helpers/pdf-text.ts:18 | the hyphen join, as written, only removes characters; what it removes is stated by the two lemmas below |
| PdfText.JoinHyphensConcat | workers/helpers/pdf-text.ts:18 | cut where no letter, "-", newline, letter is split, the as-written join acts on each piece on its own |
| PdfText.JoinHyphensOne | workers/helpers/pdf-text.ts:18 | one match loses its "-" and its newline and keeps both letters |
| PdfText.JoinHyphensFixes | workers/helpers/pdf-text.ts:18 | the as-written join changes nothing where nothing is joinable |
| PdfText.DropBlanks | workers/helpers/pdf-text.ts:21 | `replace(/[ \t]+\n/g, "\n")` only removes characters, is empty only for empty input, and keeps a first character that is not a blank; what it removes is stated by the two lemmas below |
| PdfText.DropBlanksConcat | workers/helpers/pdf-text.ts:21 | cut after a character that is not a blank, the replace acts on each piece on its own |
| PdfText.DropBlanksRun | workers/helpers/pdf-text.ts:21 | a run of blanks goes exactly when a newline follows it, and stays whole otherwise |
| PdfText.DropBlanksNoBlankNl | workers/helpers/pdf-text.ts:21 | afterwards no blank stands before a newline |
| PdfText.DropBlanksFixes | workers/helpers/pdf-text.ts:21 | text without a blank before a newline is unchanged |
| PdfText.JoinBreaks | workers/helpers/pdf-text.ts:18 | the corrected join only removes characters, and keeps the first character unless it removes a break there; what it removes is stated by the two lemmas below |
| PdfText.JoinBreaksConcat | workers/helpers/pdf-text.ts:18 | cut after a character that is neither "-" nor a newline, the corrected join acts on each piece on its own, the second piece knowing whether a letter came before it |
| PdfText.JoinBreaksOne | workers/helpers/pdf-text.ts:18 | after a letter, "-" and a newline before a letter go |
| PdfText.JoinBreaksKeepsBlankNl | workers/helpers/pdf-text.ts:18-21 | the join cannot put a blank before a newline |
| PdfText.JoinBreaksNoJoinable | workers/helpers/pdf-text.ts:18 | after the corrected join no letter, "-", newline, letter is left |
| PdfText.JoinBreaksFixes | workers/helpers/pdf-text.ts:18 | the join changes nothing where nothing is joinable |
| PdfText.CapNewlines | workers/helpers/pdf-text.ts:22 | `replace(/\n{3,}/g, "\n\n")` only removes newlines and keeps the first character; what it removes is stated by the two lemmas below |
| PdfText.CapNewlinesConcat | workers/helpers/pdf-text.ts:22 | cut after a character that is not a newline, the cap acts on each piece on its own |
| PdfText.CapNewlinesRun | workers/helpers/pdf-text.ts:22 | a run of n newlines becomes min(n, 2) newlines |
| PdfText.CapNewlinesNoTriple | workers/helpers/pdf-text.ts:22 | afterwards no three newlines follow each other |
| PdfText.CapNewlinesKeepsBlankNl | workers/helpers/pdf-text.ts:21-22 | the cap cannot put a blank before a newline |
| PdfText.CapNewlinesKeepsNoJoinable | workers/helpers/pdf-text.ts:22 | the cap cannot create a joinable break |
| PdfText.CapNewlinesFixes | workers/helpers/pdf-text.ts:22 | text without three newlines in a row is unchanged |
| PdfText.CollapseBlanks | workers/helpers/pdf-text.ts:23 | `replace(/[ \t]{2,}/g, " ")` adds only spaces and keeps the first character's kind; what it replaces is stated by the two lemmas below |
| PdfText.CollapseBlanksConcat | workers/helpers/pdf-text.ts:23 | cut after a character that is not a blank, the collapse acts on each piece on its own |
| PdfText.CollapseBlanksRun | workers/helpers/pdf-text.ts:23 | a run of two or more blanks becomes one space, and a lone blank stays |
| PdfText.CollapseNoDouble | workers/helpers/pdf-text.ts:23 | afterwards no two blanks follow each other |
| PdfText.CollapseKeepsBlankNl | workers/helpers/pdf-text.ts:21-23 | the collapse cannot put a blank before a newline |
| PdfText.CollapseKeepsNoTriple | workers/helpers/pdf-text.ts:22-23 | the collapse cannot create three newlines in a row |
| PdfText.CollapseKeepsNoJoinable | workers/helpers/pdf-text.ts:23 | the collapse cannot create a joinable break |
| PdfText.CollapseFixes | workers/helpers/pdf-text.ts:23 | text without two blanks in a row is unchanged |
| PdfText.TrimKeeps | workers/helpers/pdf-text.ts:25 | the final trim leaves nothing at either end and keeps every property above |
| PdfText.NormalizePdfTextGuarantees | workers/helpers/pdf-text.ts:5-26 | the output has no mapped character, no `\r`, no blank before a newline, no three newlines, no two blanks, nothing at either end |
| PdfText.NormalizePdfTextFixes | workers/helpers/pdf-text.ts:5-26 | as written, text that is already normal, with no joinable break, is unchanged |
| PdfText.NormalizePdfTextNotIdempotent | workers/helpers/pdf-text.ts:18-21 | as written, letter "-" blank newline letter keeps its break on the first call and loses it on the second |
| PdfText.NormalizePdfTextFixedNormal | workers/helpers/pdf-text.ts:5-26 | the corrected clean-up always produces normal text, with no joinable break left |
| PdfText.NormalizePdfTextFixedFixes | workers/helpers/pdf-text.ts:5-26 | the corrected clean-up leaves a text unchanged exactly when it is normal |
| PdfText.NormalizePdfTextFixedIdempotent | workers/helpers/pdf-text.ts:5-26 | cleaning up cleaned-up text changes nothing |
| PdfText.NormalizePdfTextFixedJoins | workers/helpers/pdf-text.ts:18-21 | the corrected clean-up joins letter "-" blank newline letter in one call |
| PdfText.InkMapPdfChars | workers/helpers/pdf-text.ts:9-13 | the map keeps every character that is not whitespace, a hyphen or mapped, in order |
| PdfText.InkJoinHyphens | workers/helpers/pdf-text.ts:18 | the as-written join removes only hyphens and newlines |
| PdfText.InkJoinBreaks | workers/helpers/pdf-text.ts:18 | the corrected join removes only hyphens and newlines |
| PdfText.DropBlanksKeepsText | workers/helpers/pdf-text.ts:21 | dropping blanks before a newline changes only whitespace |
| PdfText.CapNewlinesKeepsText | workers/helpers/pdf-text.ts:22 | capping newline runs changes only whitespace |
| PdfText.CollapseKeepsText | workers/helpers/pdf-text.ts:23 | collapsing blank runs changes only whitespace |
| PdfText.NormalizePdfTextKeepsText | workers/helpers/pdf-text.ts:5-26 | the non-whitespace characters of the output are those the hyphen join leaves of the mapped input, in order |
| PdfText.NormalizePdfTextKeepsAll | workers/helpers/pdf-text.ts:5-26 | with no joinable break in the mapped input, the output keeps all its non-whitespace characters, in order |
| PdfText.NormalizePdfTextKeepsInk | workers/helpers/pdf-text.ts:5-26 | every input character that is not whitespace, a hyphen or mapped reaches the output, in order, and no other such character appears |
| PdfText.NormalizePdfTextFixedKeepsInk | workers/helpers/pdf-text.ts:5-26 | the corrected clean-up keeps the same characters |
| PdfText.ExtractPdfTextFromBuffer | workers/helpers/pdf-text.ts:28-38 | the text is the clean-up of the parser's text ("" when none): normal in shape, holding the input's characters other than whitespace, hyphens and mapped ones in order, and all its non-whitespace characters when no break is joined; its character count is its length, and the page count is passed on only when the parser gave one |

## Left out

- I/O. The parser (`pdf-parse`), the download (`downloadPdfBuffer`,
  `fetchPdfBufferFromPresignedUrl`), S3 presigning, the conversion service,
  the DOM library (`cheerio`) and the file system are not modelled. Their
  results are inputs:
  - the parsed PDF or the error message;
  - the paragraphs and `img` sources in document order;
  - the outcome of each stage helper.
- Writing files and serialising HTML are not modelled.
  `convertHtmlToMdAndStoreMarkdown` and the Markdown collection are not part
  of this model.
- HtmlText.NormalizeHtmlText: the letter-run regex heuristics
  (`workers/helpers-pdf-processing.ts:172-182`,
  `workers/helpers/pdf-md-processsing.ts:128-138`) are the parameter
  `heuristics`. Their effect on text is not stated. Only what holds for
  every such rewrite is proved: the output is single-spaced and trimmed.
- The `catch` branch of the span cleaner (`stripWithRegexFallback`) and the
  regex watermark remover run on raw HTML, and raw HTML is not modelled. The
  `oceanofpdf.com` link removal is part of the DOM input.
- `Number(...)` is not modelled: the flags are read as integers. Non-integral
  and non-numeric values (NaN, fractions) are not covered.
- Chunker.SnapReach: `Math.floor(chunkSize * 0.6)` is computed exactly as
  `6 * size / 10`, with no floating-point rounding.
- Text.Lower: only ASCII letters are lower-cased, not the full Unicode
  mapping of `toLowerCase`.
- Text.IsWs: JavaScript's `\s` and `trim` set is written out character by
  character. No Unicode categories beyond that list are used.
- MdProcessing.DirName: `path.join` and `path.dirname` are modelled for
  relative names without `.` or `..` segments and without separators inside
  the id. No path normalisation is modelled.
- Pages are taken in order from a dense list. The parser's `pageNumber`
  that could leave holes in the `pages` array is not modelled.
- `updateOne` and `insertMany` are atomic steps on the store. Concurrent
  workers, partial inserts interrupted by a crash, and timestamps kept by
  the database are not modelled. `Date.now()` and `new Date()` are the
  parameter `now`.
- Mongoose schema fields the workers neither read nor write are not modelled.
- `extractAndStorePdfTextFromPresignedUrl`: the upsert into the PdfText
  collection is not modelled. Only the page count it writes on the document
  is modelled (`Pipeline.StageOn`).
- `cleanupTempHtmlFiles` has no caller in the core. Only the fact that it
  removes the files the conversion wrote is modelled.
- Header names are case-sensitive map keys, not express's case-insensitive
  headers.
- Logging (`console.log`) and process exit paths other than the exit code
  are not modelled.
- ExtractWorker.SelectIds: a `--pdfId` that is not a valid ObjectId makes
  the source's `find` throw a CastError, so the run exits with 1. The model
  selects nothing for it and exits with 0. `Store.CursorLimit` follows the
  cursor rule for `.limit(n)`: no bound for 0 and the absolute value of `n`
  otherwise. The
  single-batch behaviour of a negative limit is not modelled.
- String lengths count Unicode scalar values, while JavaScript's `length`
  and `slice` count UTF-16 code units. This affects
  PdfText.ExtractPdfTextFromBuffer (`charCount`), PageRows.RowsForPage
  (`charCount`) and the Chunker members (window sizes, snap positions and
  slices). For text outside the Basic Multilingual Plane, such as emoji,
  the source's counts and chunk boundaries differ from the model's. The
  source can also split a surrogate pair, which the model cannot express.
- PageRows.BuildPageRows, PdfProcessing.ExtractAndStorePdfText,
  ExtractWorker.BuildRows, ExtractWorker.ProcessPdf and
  ExtractWorker.RunExtraction run the corrected chunker (`Chunker.ChunkText`).
  They match the source only when the clamped overlap is at most
  `Chunker.SnapReach` of the clamped size, which is the bound of
  `Chunker.AsWrittenAgrees` and includes the defaults 1600/200. Above that
  bound the source's `chunkText` can loop forever (Findings, row 1), so
  `processPdf` and `main` never return, while these members always finish.
- Chunker.AsWrittenAgrees: the as-written loop has a `fuel` bound. It is
  shown to agree with the corrected loop only when the overlap does not
  exceed the snap reach; above that bound it may stall (Findings, row 1).

## Findings

| source | as written | input that shows it | evidently intended | confidence | as-written member | corrected member |
|---|---|---|---|---|---|---|
| workers/helpers-pdf-processing.ts:296 | `start = Math.max(0, end - chunkOverlap)` can fail to move forward when the window snaps back to a space and the overlap exceeds `Math.floor(0.6 * chunkSize)`. `chunkText` then loops forever; the same body is at workers/extract-pdf-text.ts:62 | size 200, overlap 150 (accepted, since 150 < 200), text of 121 "a", a space, 178 "a": the window ends at 121 and the start returns to 0 every round | the start always moves forward; `NextStart` takes one past the start when `end - overlap` would not move | not executed | Chunker.AsWrittenNeverStops | Chunker.ChunkTextWellFormed |
| workers/helpers/pdf-text.ts:18-21 | the hyphen join runs before blanks in front of a newline are removed, so `normalizePdfText` is not idempotent | a letter, "-", a space, a newline, a letter: the first call gives letter "-" newline letter, the second joins it to two letters | remove the blanks before the newline first, then join; `NormalizePdfTextFixed` does that and is idempotent | not executed | PdfText.NormalizePdfTextNotIdempotent | PdfText.NormalizePdfTextFixedIdempotent |
