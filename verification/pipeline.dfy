/*
 * The status-driven pipeline of workers/initiate-process.ts: each call of
 * `processPdfStage` reads a document's status, runs the stage that status
 * names and moves the document to the next status; `main` runs one stage
 * for each of the oldest processable documents.
 */
module Pipeline {
  import opened Wrappers
  import opened Store
  import opened MdProcessing
  import PdfText

  /** At most this many documents per batch. */
  const DEFAULT_LIMIT: nat := 10

  /** The statuses `main` selects. */
  const PROCESSABLE_STATUSES: set<string> := {
    "failed",
    "uploaded",
    "pending",
    "processing:pdf_to_html",
    "processing:html_to_md",
    "processing:extract_pdf_text"
  }

  /** The three stages: PDF to HTML (by the conversion service), HTML to
      Markdown, and text extraction. */
  datatype Stage = PdfToHtml | HtmlToMd | ExtractText

  /** The `switch` of `processPdfStage`: the stage a status runs; none for
      "completed" and for any status outside the table. */
  function StageOf(status: string): (r: Option<Stage>)
    ensures r.Some? <==> status in PROCESSABLE_STATUSES
  {
    if status in {"uploaded", "pending", "failed", "processing:pdf_to_html"} then Some(PdfToHtml)
    else if status == "processing:html_to_md" then Some(HtmlToMd)
    else if status == "processing:extract_pdf_text" then Some(ExtractText)
    else None
  }

  /** The status a stage writes once it has run. */
  function NextStatus(stage: Stage): string {
    match stage
    case PdfToHtml => "processing:html_to_md"
    case HtmlToMd => "processing:extract_pdf_text"
    case ExtractText => "completed"
  }

  /** Why a call of `processPdfStage` throws. */
  datatype StageError =
    | NotFound(pdfId: string)
    | InvalidStatus(status: string)
    | StageFailed(message: string)

  /** The message of the error thrown. */
  function StageMessage(e: StageError): string {
    match e
    case NotFound(id) => "PDF not found: " + id
    case InvalidStatus(s) => "Invalid status: " + s
    case StageFailed(m) => m
  }

  /** The stage run on one document. `ran` is what the stage's helper did:
      the message of the error it threw, or, when it finished, the page
      count it recorded on the document (only the text-extraction stage
      records one, and only when the parser reported a number). The result
      is `done`, or the error. */
  function StageOn(pdf: Pdf, ran: Result<Option<int>, string>): (Result<bool, StageError>, Pdf) {
    if pdf.status == "completed" then (Ok(true), pdf)
    else
      match StageOf(pdf.status)
      case None => (Err(InvalidStatus(pdf.status)), pdf)
      case Some(stage) =>
        match ran
        case Err(m) => (Err(StageFailed(m)), pdf)
        case Ok(pageCount) =>
          var counted := if stage == ExtractText && pageCount.Some? then pdf.(pageCount := pageCount) else pdf;
          (Ok(false), counted.(status := NextStatus(stage)))
  }

  /** `processPdfStage` on the collection of documents. */
  function StageStep(pdfs: map<string, Pdf>, pdfId: string, ran: Result<Option<int>, string>)
    : (Result<bool, StageError>, map<string, Pdf>)
  {
    if pdfId !in pdfs then (Err(NotFound(pdfId)), pdfs)
    else
      var (r, pdf) := StageOn(pdfs[pdfId], ran);
      (r, pdfs[pdfId := pdf])
  }

  /** `processPdfStage(pdfId)`: the chunk rows are not touched. */
  method ProcessPdfStage(store: PdfStore, pdfId: string, ran: Result<Option<int>, string>)
    returns (r: Result<bool, StageError>)
    modifies store
    ensures (r, store.pdfs) == StageStep(old(store.pdfs), pdfId, ran)
    ensures store.chunks == old(store.chunks)
  {
    if pdfId !in store.pdfs {
      return Err(NotFound(pdfId));
    }
    var pdf := store.pdfs[pdfId];
    if pdf.status == "completed" {
      r := Ok(true);
      assert store.pdfs[pdfId := pdf] == store.pdfs;
      return;
    }
    var stage := StageOf(pdf.status);
    if stage.None? {
      r := Err(InvalidStatus(pdf.status));
      assert store.pdfs[pdfId := pdf] == store.pdfs;
      return;
    }
    if ran.Err? {
      r := Err(StageFailed(ran.error));
      assert store.pdfs[pdfId := pdf] == store.pdfs;
      return;
    }
    if stage.value == ExtractText && ran.value.Some? {
      pdf := pdf.(pageCount := ran.value);
    }
    store.Put(pdfId, pdf.(status := NextStatus(stage.value)));
    r := Ok(false);
  }

  // What one call does.

  /** A call changes at most the named document, and on an error nothing:
      a missing document, a status outside the table and a stage helper that
      throws all leave every status as it was. */
  lemma StageStepFrame(pdfs: map<string, Pdf>, pdfId: string, ran: Result<Option<int>, string>)
    ensures var (r, after) := StageStep(pdfs, pdfId, ran);
            && after.Keys == pdfs.Keys
            && (forall id :: id in pdfs && id != pdfId ==> after[id] == pdfs[id])
            && (r.Err? || r == Ok(true) ==> after == pdfs)
  {
    if pdfId in pdfs {
      var (r, pdf) := StageOn(pdfs[pdfId], ran);
      if r.Err? || r == Ok(true) {
        assert pdf == pdfs[pdfId];
        assert pdfs[pdfId := pdf] == pdfs;
      }
    }
  }

  /** The transition table: "completed" is done and unchanged; a status in
      the table whose helper finishes moves to the next status, so a failed
      document starts over at the first stage; any other status is an error;
      an existing document is never reported missing. */
  lemma StageOnTable(pdf: Pdf, ran: Result<Option<int>, string>)
    ensures var (r, after) := StageOn(pdf, ran);
            && (r == Ok(true) <==> pdf.status == "completed")
            && (r == Ok(true) ==> after == pdf)
            && (r == Ok(false) <==> pdf.status in PROCESSABLE_STATUSES && ran.Ok?)
            && (r == Ok(false) ==> after.status == NextStatus(StageOf(pdf.status).value))
            && (r == Ok(false) && pdf.status == "failed" ==> after.status == "processing:html_to_md")
            && (r.Err? ==> after == pdf && !r.error.NotFound?)
            && (r == Err(InvalidStatus(pdf.status)) <==> pdf.status != "completed" && pdf.status !in PROCESSABLE_STATUSES)
            && after.userId == pdf.userId && after.createdAt == pdf.createdAt
  {
  }

  // Progress.

  /** A status the pipeline knows: processable, or completed. */
  predicate Known(status: string) {
    status in PROCESSABLE_STATUSES || status == "completed"
  }

  /** How many stages are left before "completed". */
  function Remaining(status: string): (n: nat)
    ensures n <= 3
    ensures Known(status) ==> (n == 0 <==> status == "completed")
  {
    match StageOf(status)
    case None => 0
    case Some(PdfToHtml) => 3
    case Some(HtmlToMd) => 2
    case Some(ExtractText) => 1
  }

  /** A call whose helper finishes takes a known status one stage closer to
      "completed", and a call on "completed" reports done. */
  lemma StageOnAdvances(pdf: Pdf, ran: Result<Option<int>, string>)
    requires Known(pdf.status) && ran.Ok?
    ensures var (r, after) := StageOn(pdf, ran);
            && Known(after.status)
            && (r == Ok(true) <==> Remaining(pdf.status) == 0)
            && Remaining(after.status) == (if Remaining(pdf.status) == 0 then 0 else Remaining(pdf.status) - 1)
  {
  }

  /** Calls of `processPdfStage` on one document, one per helper outcome in
      `runs`, in order. */
  function RunStages(pdfs: map<string, Pdf>, pdfId: string, runs: seq<Result<Option<int>, string>>): (after: map<string, Pdf>)
    ensures after.Keys == pdfs.Keys
    decreases |runs|
  {
    if runs == [] then pdfs
    else
      var before := RunStages(pdfs, pdfId, runs[..|runs| - 1]);
      StageStepFrame(before, pdfId, runs[|runs| - 1]);
      StageStep(before, pdfId, runs[|runs| - 1]).1
  }

  /** From any processable status, calls whose helpers all finish reach
      "completed" after at most three of them, and the call after that
      reports done: calling until done terminates. */
  lemma {:induction false} StagesComplete(pdfs: map<string, Pdf>, pdfId: string, runs: seq<Result<Option<int>, string>>)
    requires pdfId in pdfs && Known(pdfs[pdfId].status)
    requires forall i :: 0 <= i < |runs| ==> runs[i].Ok?
    ensures var after := RunStages(pdfs, pdfId, runs);
            && Known(after[pdfId].status)
            && Remaining(after[pdfId].status) == (if |runs| >= Remaining(pdfs[pdfId].status) then 0
                                                  else Remaining(pdfs[pdfId].status) - |runs|)
            && (|runs| >= 3 ==> after[pdfId].status == "completed"
                                && forall ran :: StageStep(after, pdfId, ran).0 == Ok(true))
    decreases |runs|
  {
    if runs != [] {
      var n := |runs| - 1;
      StagesComplete(pdfs, pdfId, runs[..n]);
      var before := RunStages(pdfs, pdfId, runs[..n]);
      StageOnAdvances(before[pdfId], runs[n]);
    }
  }

  /** The text-extraction stage records the page count the extraction
      helper reports, and keeps the old one when the parser gave none. */
  lemma ExtractStageRecordsPages(pdf: Pdf, parsed: PdfText.Parsed)
    requires pdf.status == "processing:extract_pdf_text"
    ensures var (r, after) := StageOn(pdf, Ok(PdfText.ExtractPdfTextFromBuffer(parsed).pageCount));
            && r == Ok(false) && after.status == "completed"
            && after.pageCount == (if parsed.numpages.Some? then parsed.numpages else pdf.pageCount)
  {
  }

  // The Markdown stage's input.

  /** The cleaned HTML file the Markdown stage reads:
      `path.join(process.cwd(), ".temp", "clean-<pdfId>.html")`. */
  function HtmlFilePath(cwd: string, pdfId: string): string {
    Join(TempDir(cwd), "clean-" + pdfId + ".html")
  }

  /** The Markdown stage reads the cleaned file the first stage wrote, which
      ran the conversion with the document id as its job id. */
  lemma HtmlStageReadsConverted(cwd: string, pdfId: string, now: string)
    requires pdfId != [] && '/' !in pdfId && cwd != []
    ensures HtmlFilePath(cwd, pdfId) == ConvertPaths(cwd, Some(pdfId), now).1
  {
    ConvertPathsCleanedUp(cwd, pdfId, now);
  }

  // The batch run.

  /** `main` after connecting: the oldest processable documents, at most
      `DEFAULT_LIMIT`, each given one call of `processPdfStage`; an error is
      logged and the run goes on with the next document. `run` gives each
      document's helper outcome. Every selected document has taken exactly
      its own step and every other document is unchanged. */
  method InitiateBatch(store: PdfStore, run: string -> Result<Option<int>, string>)
    returns (ghost ids: seq<string>)
    modifies store
    ensures OldestFirst(old(store.pdfs), PROCESSABLE_STATUSES, Some(DEFAULT_LIMIT), ids)
    ensures store.pdfs.Keys == old(store.pdfs).Keys && store.chunks == old(store.chunks)
    ensures forall i :: 0 <= i < |ids| ==> store.pdfs[ids[i]] == StageOn(old(store.pdfs)[ids[i]], run(ids[i])).1
    ensures forall id :: id in old(store.pdfs) && id !in ids ==> store.pdfs[id] == old(store.pdfs)[id]
  {
    var selected := store.SelectOldest(PROCESSABLE_STATUSES, Some(DEFAULT_LIMIT));
    ids := selected;
    for i := 0 to |selected|
      invariant store.pdfs.Keys == old(store.pdfs).Keys && store.chunks == old(store.chunks)
      invariant forall k :: 0 <= k < i ==> store.pdfs[selected[k]] == StageOn(old(store.pdfs)[selected[k]], run(selected[k])).1
      invariant forall id :: id in old(store.pdfs) && id !in selected[..i] ==> store.pdfs[id] == old(store.pdfs)[id]
    {
      assert selected[i] !in selected[..i];
      ghost var before := store.pdfs;
      var r := ProcessPdfStage(store, selected[i], run(selected[i]));
      StageStepFrame(before, selected[i], run(selected[i]));
      assert selected[..i + 1] == selected[..i] + [selected[i]];
    }
  }
}
