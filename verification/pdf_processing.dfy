/** The span-based HTML cleaner and the page-text extraction of the older
    processing helpers: the span reader, the heading classes, the block
    filter with the watermark check, the cover image, and
    `extractAndStorePdfText`. */
module PdfProcessing {
  import opened Wrappers
  import opened Text
  import opened HtmlText
  import opened HtmlBlocks
  import opened Seqs
  import opened Chunker
  import opened PageRows
  import opened Store
  import opened MdProcessing

  // Reading a paragraph span by span.

  /** The space put in front of a non-blank span: one when the span began
      with whitespace and the text read so far is neither empty nor ending
      in a space. */
  function SpanSeam(out: string, t: string): (sep: string)
    requires !AllWs(t)
    ensures sep == [] || sep == " "
    ensures sep == " " <==> IsWs(t[0]) && out != [] && out[|out| - 1] != ' '
  {
    if IsWs(t[0]) && out != [] && out[|out| - 1] != ' ' then " " else []
  }

  /** What one span does to the text read so far: a span that is empty, or
      empty once its leading whitespace is gone, adds nothing; any other adds
      its text without the leading whitespace, after the seam. */
  function SpanStep(out: string, t: string): string {
    if AllWs(t) then out else out + SpanSeam(out, t) + TrimStart(t)
  }

  /** The text read from the first spans of a paragraph. */
  function SpanFold(runs: seq<string>): string {
    if runs == [] then [] else SpanStep(SpanFold(runs[..|runs| - 1]), runs[|runs| - 1])
  }

  /** A span that starts with a character other than whitespace is glued
      onto the text read so far with no space, even between two letters. */
  lemma SpanFoldGlues(runs: seq<string>, x: string)
    requires x != [] && !IsWs(x[0])
    ensures SpanFold(runs + [x]) == SpanFold(runs) + x
  {
    assert (runs + [x])[..|runs|] == runs;
    assert SkipWs(x, 0) == 0;
  }

  /** A span that starts with whitespace, read after text that does not end
      in a space, is set off by exactly one space. */
  lemma SpanFoldSpaces(runs: seq<string>, x: string)
    requires SpanFold(runs) != [] && SpanFold(runs)[|SpanFold(runs)| - 1] != ' '
    requires !AllWs(x) && IsWs(x[0])
    ensures SpanFold(runs + [x]) == SpanFold(runs) + " " + TrimStart(x)
  {
    assert (runs + [x])[..|runs|] == runs;
  }

  /** `extractTextFromParagraph`: the element's whole text when it has no
      spans, else the joined spans, even when they join to nothing. */
  function SpanText(p: Paragraph): string {
    if p.runs == [] then p.fullText else SpanFold(p.runs)
  }

  /** The reader as the source writes it, one span at a time. */
  method ReadSpans(p: Paragraph) returns (text: string)
    ensures text == SpanText(p)
  {
    if |p.runs| == 0 {
      return p.fullText;
    }
    var out := "";
    for i := 0 to |p.runs|
      invariant out == SpanFold(p.runs[..i])
    {
      ghost var before := out;
      assert SpanFold(p.runs[..i + 1]) == SpanStep(before, p.runs[i]) by {
        assert p.runs[..i + 1][..i] == p.runs[..i];
      }
      var t := p.runs[i];
      if t == [] {
        continue;
      }
      var hasLeadingSpace := IsWs(t[0]);
      t := TrimStart(t);
      if t == [] {
        continue;
      }
      if hasLeadingSpace && out != [] && out[|out| - 1] != ' ' {
        out := out + " ";
      }
      assert out == before + SpanSeam(before, p.runs[i]);
      out := out + t;
    }
    assert p.runs[..|p.runs|] == p.runs;
    text := out;
  }

  /** One span adds exactly its own non-whitespace characters. */
  lemma SpanStepText(out: string, t: string)
    ensures RemoveWs(SpanStep(out, t)) == RemoveWs(out) + RemoveWs(t)
  {
    if AllWs(t) {
      RemoveWsAllWs(t);
      assert out + [] == out;
    } else {
      TrimStartText(t);
      JoinText(out, SpanSeam(out, t), TrimStart(t));
    }
  }

  /** The reader keeps every character of the spans that is not whitespace,
      in order. */
  lemma {:induction false} SpanFoldText(runs: seq<string>)
    ensures RemoveWs(SpanFold(runs)) == RemoveWs(Flatten(runs))
    decreases |runs|
  {
    if runs != [] {
      var init := runs[..|runs| - 1];
      var t := runs[|runs| - 1];
      SpanFoldText(init);
      RemoveWsConcat(Flatten(init), t);
      SpanStepText(SpanFold(init), t);
    }
  }

  /** The spans join to nothing exactly when every one of them is blank. */
  lemma {:induction false} SpanFoldEmpty(runs: seq<string>)
    ensures SpanFold(runs) == [] <==> forall i :: 0 <= i < |runs| ==> AllWs(runs[i])
    decreases |runs|
  {
    if runs != [] {
      var init := runs[..|runs| - 1];
      SpanFoldEmpty(init);
      assert forall i :: 0 <= i < |init| ==> init[i] == runs[i];
    }
  }

  /** The joined text never starts with whitespace, and never holds a space
      next to a space unless a span brought one in. */
  lemma {:induction false} SpanFoldShape(runs: seq<string>)
    requires forall i :: 0 <= i < |runs| ==> SingleSpaced(TrimStart(runs[i]))
    ensures var out := SpanFold(runs); (out == [] || !IsWs(out[0])) && SingleSpaced(out)
    decreases |runs|
  {
    if runs != [] {
      var init := runs[..|runs| - 1];
      var t := runs[|runs| - 1];
      var out := SpanFold(init);
      SpanFoldShape(init);
      if !AllWs(t) {
        SingleSpacedJoin(out, SpanSeam(out, t), TrimStart(t));
      }
    }
  }

  // Heading classes.

  /** The lower-cased class names level `d` the way the span cleaner looks
      for it: it contains "heading-d". */
  predicate HasLevel(c: string, d: char) {
    Contains(c, "heading-" + [d])
  }

  /** The tag of a `p.paragraph` element: the first of "heading-1" to
      "heading-4" its lower-cased class contains, else a paragraph. */
  function SpanTag(className: string): (t: Tag)
    ensures t != P ==> HasLevel(Lower(className), TagLevel(t))
    ensures t == P <==> (&& !HasLevel(Lower(className), '1') && !HasLevel(Lower(className), '2')
                         && !HasLevel(Lower(className), '3') && !HasLevel(Lower(className), '4'))
  {
    var c := Lower(className);
    if HasLevel(c, '1') then H1
    else if HasLevel(c, '2') then H2
    else if HasLevel(c, '3') then H3
    else if HasLevel(c, '4') then H4
    else P
  }

  /** The digit of a heading tag. */
  function TagLevel(t: Tag): char {
    match t
    case H1 => '1'
    case H2 => '2'
    case H3 => '3'
    case H4 => '4'
    case P => '0'
  }

  /** A level is chosen only when no lower level is present, and a paragraph
      only when no level is. */
  lemma SpanTagFirstLevel(className: string, d: char)
    requires '1' <= d <= '4' && HasLevel(Lower(className), d)
    ensures SpanTag(className) != P && TagLevel(SpanTag(className)) <= d
  {
  }

  /** A class the span cleaner reads as a heading is a heading to the
      node-walking cleaner too, and both agree on a first-level heading. */
  lemma SpanHeadingIsHeading(className: string)
    ensures SpanTag(className) != P ==> InferTag(className) != P
    ensures SpanTag(className) == H1 ==> InferTag(className) == H1
  {
    var c := Lower(className);
    var t := SpanTag(className);
    if t != P {
      assert LevelMarked(c, TagLevel(t));
    }
  }

  // The cover image.

  /** An `img` source the cleaner takes for a cover: present, and a
      `data:image/` URL. */
  predicate IsDataImage(src: Option<string>) {
    src.Some? && StartsWith(src.value, "data:image/")
  }

  /** The first `img` source, in document order, that is a data image. */
  function FirstDataImage(srcs: seq<Option<string>>): (r: Option<string>)
    ensures r.None? <==> forall i :: 0 <= i < |srcs| ==> !IsDataImage(srcs[i])
    ensures r.Some? ==> exists i :: 0 <= i < |srcs| && srcs[i] == r && IsDataImage(r)
                                    && forall j :: 0 <= j < i ==> !IsDataImage(srcs[j])
  {
    if srcs == [] then None
    else if IsDataImage(srcs[0]) then
      assert srcs[0] == srcs[0];
      srcs[0]
    else
      var r := FirstDataImage(srcs[1..]);
      assert forall i :: 0 < i < |srcs| ==> srcs[i] == srcs[1..][i - 1];
      if r.Some? then
        var i :| 0 <= i < |srcs[1..]| && srcs[1..][i] == r && IsDataImage(r)
                 && forall j :: 0 <= j < i ==> !IsDataImage(srcs[1..][j]);
        assert srcs[i + 1] == r;
        r
      else r
  }

  // The cleaner.

  /** What the span cleaner produces: the cover image, if any, then the
      blocks in document order. */
  datatype CleanedDoc = CleanedDoc(cover: Option<string>, blocks: seq<Block>)

  /** One paragraph as a block: its heading class and its normalised text. */
  function SpanBlockOf(heuristics: string -> string, p: Paragraph): Block {
    Block(SpanTag(p.className), NormalizeHtmlText(SpanCleaner, heuristics, SpanText(p)))
  }

  function SpanBlocks(heuristics: string -> string, ps: seq<Paragraph>): (bs: seq<Block>)
    ensures |bs| == |ps|
  {
    MapSeq(p => SpanBlockOf(heuristics, p), ps)
  }

  /** The block list of `cleanupHtml`: `p.paragraph` elements in document
      order, without those whose text is empty, only dots, or carries the
      watermark. */
  function CleanSpanBlocks(heuristics: string -> string, ps: seq<Paragraph>): (r: seq<Block>)
    ensures forall b :: b in r ==> b.text != [] && !DotsOnly(b.text) && !Watermarked(b.text)
  {
    KeepBlocks(true, SpanBlocks(heuristics, ps))
  }

  /** A paragraph whose text passes all three tests survives as its own
      block. */
  lemma CleanSpanBlocksComplete(heuristics: string -> string, ps: seq<Paragraph>, i: nat)
    requires i < |ps|
    ensures var b := SpanBlockOf(heuristics, ps[i]);
      b.text != [] && !DotsOnly(b.text) && !Watermarked(b.text) ==> b in CleanSpanBlocks(heuristics, ps)
  {
    assert SpanBlocks(heuristics, ps)[i] == SpanBlockOf(heuristics, ps[i]);
  }

  /** `cleanupHtml` with the DOM library's output given: the `img` sources
      and the paragraphs, in document order. */
  method CleanupHtml(heuristics: string -> string, srcs: seq<Option<string>>, ps: seq<Paragraph>)
    returns (doc: CleanedDoc)
    ensures doc == CleanedDoc(FirstDataImage(srcs), CleanSpanBlocks(heuristics, ps))
  {
    var cover := FirstDataImage(srcs);
    var blocks := [];
    for i := 0 to |ps|
      invariant blocks == Filter(b => Kept(true, b), SpanBlocks(heuristics, ps[..i]))
    {
      var b := ReadSpanBlock(heuristics, ps[i]);
      MapSeqSnoc(p => SpanBlockOf(heuristics, p), ps, i);
      FilterSnoc(b => Kept(true, b), SpanBlocks(heuristics, ps[..i]), b);
      if b.text == [] {
        continue;
      }
      if DotsOnly(b.text) {
        continue;
      }
      if Watermarked(b.text) {
        continue;
      }
      blocks := blocks + [b];
    }
    assert ps[..|ps|] == ps;
    doc := CleanedDoc(cover, blocks);
  }

  /** The tag and text of one `p.paragraph` element. */
  method ReadSpanBlock(heuristics: string -> string, p: Paragraph) returns (b: Block)
    ensures b == SpanBlockOf(heuristics, p)
  {
    var tag := SpanTag(p.className);
    var raw := ReadSpans(p);
    var text := NormalizeHtmlText(SpanCleaner, heuristics, raw);
    b := Block(tag, text);
  }

  // Page text and chunk rows.

  /** What the PDF parser hands over: the text items of each page, in page
      order, and the page count it reports, if it reports one. */
  datatype ParsedPdf = ParsedPdf(pageItems: seq<seq<string>>, numpages: Option<int>)

  /** `items.join(" ")`: no item gives the empty string, one item gives
      itself, and with `JoinWordsConcat` every two neighbouring items are
      separated by one space. */
  function JoinWords(items: seq<string>): (r: string)
    ensures RemoveWs(r) == RemoveWs(Flatten(items))
    ensures items == [] ==> r == []
    ensures |items| == 1 ==> r == items[0]
  {
    if |items| <= 1 then Flatten(items)
    else
      var init := items[..|items| - 1];
      var last := items[|items| - 1];
      JoinText(JoinWords(init), " ", last);
      RemoveWsConcat(Flatten(init), last);
      JoinWords(init) + " " + last
  }

  /** Joining two non-empty lists puts one space between their joins. */
  lemma {:induction false} JoinWordsConcat(a: seq<string>, b: seq<string>)
    requires a != [] && b != []
    ensures JoinWords(a + b) == JoinWords(a) + " " + JoinWords(b)
    decreases |b|
  {
    if |b| == 1 {
      assert b == [b[0]];
      JoinWordsSnoc(a, b[0]);
    } else {
      var init, last := b[..|b| - 1], b[|b| - 1];
      assert init + [last] == b;
      AppendAssoc(a, init, [last]);
      JoinWordsSnoc(a + init, last);
      JoinWordsSnoc(init, last);
      JoinWordsConcat(a, init);
      var x, y := JoinWords(a) + " ", JoinWords(init);
      AppendAssoc(x, y, " ");
      AppendAssoc(x, y + " ", last);
    }
  }

  lemma JoinWordsSnoc(items: seq<string>, x: string)
    requires items != []
    ensures JoinWords(items + [x]) == JoinWords(items) + " " + x
  {
    var s := items + [x];
    assert s[..|s| - 1] == items && s[|s| - 1] == x;
  }

  /** Items that are themselves normalised and non-empty join into
      normalised text. */
  lemma {:induction false} JoinWordsNormalized(items: seq<string>)
    requires items != []
    requires forall i :: 0 <= i < |items| ==> items[i] != [] && Normalized(items[i])
    ensures JoinWords(items) != [] && Normalized(JoinWords(items))
    decreases |items|
  {
    if |items| > 1 {
      var init := items[..|items| - 1];
      assert forall i :: 0 <= i < |init| ==> init[i] == items[i];
      JoinWordsNormalized(init);
      NormalizedJoin(JoinWords(init), items[|items| - 1]);
    }
  }

  /** Each page text is normalised and holds the page's non-whitespace
      characters in order. */
  lemma PageTextsMeaning(pageItems: seq<seq<string>>)
    ensures forall i :: 0 <= i < |pageItems| ==>
      Normalized(NormalizeWhitespace(JoinWords(pageItems[i])))
      && RemoveWs(NormalizeWhitespace(JoinWords(pageItems[i]))) == RemoveWs(Flatten(pageItems[i]))
  {
    forall i | 0 <= i < |pageItems|
      ensures Normalized(NormalizeWhitespace(JoinWords(pageItems[i])))
      ensures RemoveWs(NormalizeWhitespace(JoinWords(pageItems[i]))) == RemoveWs(Flatten(pageItems[i]))
    {
      NormalizeWhitespaceNormalized(JoinWords(pageItems[i]));
      NormalizeWhitespacePreservesText(JoinWords(pageItems[i]));
    }
  }

  /** `extractTextByPage`: each page's items joined with spaces and
      whitespace-normalised, and the parser's page count or, failing that,
      the number of pages. */
  function PageTexts(parsed: ParsedPdf): (pages: seq<string>)
    ensures |pages| == |parsed.pageItems|
    ensures forall i :: 0 <= i < |pages| ==>
      Normalized(pages[i]) && RemoveWs(pages[i]) == RemoveWs(Flatten(parsed.pageItems[i]))
  {
    PageTextsMeaning(parsed.pageItems);
    seq(|parsed.pageItems|, i requires 0 <= i < |parsed.pageItems| => NormalizeWhitespace(JoinWords(parsed.pageItems[i])))
  }

  /** When the parser hands over items that are already normalised and
      non-empty, a page's text is exactly its items with one space between
      neighbours. */
  lemma PageTextOfWords(parsed: ParsedPdf, i: nat)
    requires i < |parsed.pageItems| && parsed.pageItems[i] != []
    requires forall j :: 0 <= j < |parsed.pageItems[i]| ==> parsed.pageItems[i][j] != [] && Normalized(parsed.pageItems[i][j])
    ensures PageTexts(parsed)[i] == JoinWords(parsed.pageItems[i])
  {
    JoinWordsNormalized(parsed.pageItems[i]);
    NormalizeWhitespaceFixesNormalized(JoinWords(parsed.pageItems[i]));
  }

  function PageCount(parsed: ParsedPdf): int {
    if parsed.numpages.Some? then parsed.numpages.value else |parsed.pageItems|
  }

  /** What `extractAndStorePdfText` reports. */
  datatype Extraction = Extraction(pageCount: int, chunkCount: nat)

  datatype ExtractError =
    | PdfNotFound(pdfId: string)
    | FetchFailed(message: string)
    | ChunkFailed(error: ChunkError)

  /** The rows `extractAndStorePdfText` builds for a document. */
  function PdfRows(pdfId: string, userId: string, parsed: ParsedPdf, chunkSize: Option<int>, chunkOverlap: Option<int>)
    : Result<seq<Row>, ChunkError>
  {
    RowsOf(pdfId, userId, PageResults(PageTexts(parsed), chunkSize.GetOr(DEFAULT_CHUNK_SIZE), chunkOverlap.GetOr(DEFAULT_CHUNK_OVERLAP)))
  }

  /** `extractAndStorePdfText`: look the document up, delete its chunk rows,
      fetch and parse the PDF (`fetched`: the parser's output or the message
      of the error that stopped the download or the parse), build the rows
      page by page and insert them when there are any. The old rows are
      gone even when a later step fails. */
  method ExtractAndStorePdfText(
    store: PdfStore, pdfId: string, fetched: Result<ParsedPdf, string>,
    chunkSize: Option<int>, chunkOverlap: Option<int>)
    returns (r: Result<Extraction, ExtractError>)
    requires store.Valid()
    modifies store
    ensures store.Valid() && store.pdfs == old(store.pdfs)
    ensures pdfId !in store.pdfs ==> r == Err(PdfNotFound(pdfId)) && store.chunks == old(store.chunks)
    ensures pdfId in store.pdfs ==> match fetched
      case Err(m) => r == Err(FetchFailed(m)) && store.chunks == WithoutPdf(old(store.chunks), pdfId)
      case Ok(parsed) =>
        match PdfRows(pdfId, store.pdfs[pdfId].userId, parsed, chunkSize, chunkOverlap)
        case Err(e) => r == Err(ChunkFailed(e)) && store.chunks == WithoutPdf(old(store.chunks), pdfId)
        case Ok(docs) =>
          && r == Ok(Extraction(PageCount(parsed), |docs|))
          && store.chunks == WithoutPdf(old(store.chunks), pdfId) + docs
  {
    if pdfId !in store.pdfs {
      return Err(PdfNotFound(pdfId));
    }
    var pdf := store.pdfs[pdfId];
    var size := chunkSize.GetOr(DEFAULT_CHUNK_SIZE);
    var overlap := chunkOverlap.GetOr(DEFAULT_CHUNK_OVERLAP);
    store.DeleteChunks(pdfId);
    if fetched.Err? {
      return Err(FetchFailed(fetched.error));
    }
    var parsed := fetched.value;
    var pages := PageTexts(parsed);
    var docs := BuildPageRows(pdfId, pdf.userId, pages, size, overlap);
    if docs.Err? {
      return Err(ChunkFailed(docs.error));
    }
    if |docs.value| > 0 {
      RowsOfShape(pdfId, pdf.userId, PageResults(pages, size, overlap));
      ReplaceRowsFits(old(store.chunks), pdfId, docs.value);
      var ok := store.InsertChunks(docs.value);
      assert ok;
    } else {
      assert store.chunks + docs.value == store.chunks;
    }
    r := Ok(Extraction(PageCount(parsed), |docs.value|));
  }
}
