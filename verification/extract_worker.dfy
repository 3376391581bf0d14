/** The text-extraction worker: command-line flags, the claim on a document,
    the replace-and-complete step for one document, and the batch run that
    stops at the first failure. */
module ExtractWorker {
  import opened Wrappers
  import opened Chunker
  import opened PageRows
  import opened Store
  import opened PdfProcessing

  // Command-line flags.

  /** `args.indexOf(x)`: the first position holding `x`, or -1. */
  function IndexOf(args: seq<string>, x: string): (r: int)
    ensures -1 <= r < |args|
    ensures r == -1 <==> x !in args
    ensures r >= 0 ==> args[r] == x && forall j :: 0 <= j < r ==> args[j] != x
  {
    if args == [] then -1
    else if args[0] == x then 0
    else
      var k := IndexOf(args[1..], x);
      if k == -1 then -1 else k + 1
  }

  /** `getValue(flag)`: the token right after the first occurrence of the
      flag; nothing when the flag is absent or is the last token. */
  function GetValue(args: seq<string>, flag: string): (r: Option<string>)
    ensures r.Some? ==> var i := IndexOf(args, flag); 0 <= i < |args| - 1 && r.value == args[i + 1]
    ensures r.None? <==> flag !in args || IndexOf(args, flag) == |args| - 1
  {
    var idx := IndexOf(args, flag);
    if idx == -1 || idx + 1 >= |args| then None else Some(args[idx + 1])
  }

  /** The flags as `parseArgs` reads them, before `Number(...)`: the values
      of `--limit`, `--chunkSize` and `--chunkOverlap` default to "10",
      "1600" and "200". */
  datatype RawArgs = RawArgs(pdfId: Option<string>, limit: string, chunkSize: string, chunkOverlap: string)

  function ParseArgs(args: seq<string>): (a: RawArgs)
    ensures a.pdfId == GetValue(args, "--pdfId")
    ensures "--limit" !in args ==> a.limit == "10"
    ensures "--chunkSize" !in args ==> a.chunkSize == "1600"
    ensures "--chunkOverlap" !in args ==> a.chunkOverlap == "200"
  {
    RawArgs(
      GetValue(args, "--pdfId"),
      GetValue(args, "--limit").GetOr("10"),
      GetValue(args, "--chunkSize").GetOr("1600"),
      GetValue(args, "--chunkOverlap").GetOr("200"))
  }

  /** A later occurrence of a flag never overrides the first. */
  lemma GetValueFirstWins(args: seq<string>, flag: string, rest: seq<string>, v: string)
    requires flag !in args
    ensures GetValue(args + [flag, v] + rest, flag) == Some(v)
  {
    var all := args + [flag, v] + rest;
    assert all[|args|] == flag && all[|args| + 1] == v;
    assert forall j :: 0 <= j < |args| ==> all[j] == args[j];
    var idx := IndexOf(all, flag);
    assert idx == |args|;
  }

  /** The flags after conversion to numbers. */
  datatype Args = Args(pdfId: Option<string>, limit: int, chunkSize: int, chunkOverlap: int)

  // Error messages.

  /** The decimal digits of `n`. */
  function Decimal(n: nat): (s: string)
    ensures |s| >= 1 && forall i :: 0 <= i < |s| ==> '0' <= s[i] <= '9'
  {
    var d := ['0' + (n % 10) as char];
    if n < 10 then d else Decimal(n / 10) + d
  }

  /** The number `Decimal` spells out. */
  function DecimalValue(s: string): nat
    requires forall i :: 0 <= i < |s| ==> '0' <= s[i] <= '9'
  {
    if s == [] then 0 else 10 * DecimalValue(s[..|s| - 1]) + (s[|s| - 1] - '0') as nat
  }

  /** The digits read back give the number. */
  lemma {:induction false} DecimalRoundTrip(n: nat)
    ensures DecimalValue(Decimal(n)) == n
  {
    var s := Decimal(n);
    if n >= 10 {
      DecimalRoundTrip(n / 10);
      assert s[..|s| - 1] == Decimal(n / 10);
    }
  }

  /** The message of the error `chunkText` throws. */
  function ChunkErrorMessage(e: ChunkError): string {
    "Invalid chunking params: chunkOverlap (" + Decimal(e.chunkOverlap)
    + ") must be < chunkSize (" + Decimal(e.chunkSize) + ")."
  }

  // One document.

  /** `claimPdfForProcessing` finds the document only in these statuses. */
  predicate Claimable(pdfs: map<string, Pdf>, pdfId: string) {
    pdfId in pdfs && (pdfs[pdfId].status == "uploaded" || pdfs[pdfId].status == "failed")
  }

  /** The claimed document: status "processing", no recorded error. */
  function Claimed(pdf: Pdf): Pdf {
    pdf.(status := "processing", textExtractionError := None)
  }

  /** The document after a failure with message `m`. */
  function Failed(pdf: Pdf, m: string): Pdf {
    Claimed(pdf).(status := "failed", textExtractionError := Some(m))
  }

  /** The document after a successful run. */
  function Completed(pdf: Pdf, pageCount: int, chunkCount: nat, now: int): Pdf {
    Claimed(pdf).(status := "completed", pageCount := Some(pageCount), textChunkCount := Some(chunkCount),
                  textExtractedAt := Some(now), textExtractionError := None)
  }

  /** `claimPdfForProcessing`: a compare-and-set from "uploaded" or "failed"
      to "processing" that also clears the recorded error. */
  method Claim(store: PdfStore, pdfId: string) returns (claimed: Option<Pdf>)
    modifies store
    ensures store.chunks == old(store.chunks)
    ensures Claimable(old(store.pdfs), pdfId) ==>
      claimed == Some(Claimed(old(store.pdfs)[pdfId])) && store.pdfs == old(store.pdfs)[pdfId := claimed.value]
    ensures !Claimable(old(store.pdfs), pdfId) ==> claimed == None && store.pdfs == old(store.pdfs)
  {
    if pdfId in store.pdfs && (store.pdfs[pdfId].status == "uploaded" || store.pdfs[pdfId].status == "failed") {
      var pdf := Claimed(store.pdfs[pdfId]);
      store.Put(pdfId, pdf);
      return Some(pdf);
    }
    return None;
  }

  datatype Outcome = Skipped | Done(pageCount: int, chunkCount: nat)

  /** What the body of `processPdf`'s `try` computes once the old rows are
      gone: from `fetched`, what downloading and parsing gives (the parser's
      output, or the message of the error that stopped it), the page count
      and the rows built page by page, or the message of the error thrown on
      the way. */
  function Attempt(pdfId: string, userId: string, fetched: Result<ParsedPdf, string>, chunkSize: int, chunkOverlap: int)
    : Result<(int, seq<Row>), string>
  {
    match fetched
    case Err(m) => Err(m)
    case Ok(parsed) =>
      match PdfRows(pdfId, userId, parsed, Some(chunkSize), Some(chunkOverlap))
      case Err(e) => Err(ChunkErrorMessage(e))
      case Ok(docs) => Ok((PageCount(parsed), docs))
  }

  /** What `processPdf` does to the two collections and what it reports:
      the result, then the documents and the chunk rows afterwards. A
      document that cannot be claimed is skipped and nothing changes.
      Otherwise its old rows are deleted and, when the attempt succeeds, the
      new rows inserted and the document completed with its counts and the
      clock reading `now`; when it fails, the document is marked failed with
      the error's message, and the error is passed on. */
  function ProcessStep(pdfs: map<string, Pdf>, chunks: seq<Row>, pdfId: string, fetched: Result<ParsedPdf, string>,
                       chunkSize: int, chunkOverlap: int, now: int)
    : (Result<Outcome, string>, map<string, Pdf>, seq<Row>)
  {
    if !Claimable(pdfs, pdfId) then (Ok(Skipped), pdfs, chunks)
    else
      var pdf := pdfs[pdfId];
      var kept := WithoutPdf(chunks, pdfId);
      match Attempt(pdfId, pdf.userId, fetched, chunkSize, chunkOverlap)
      case Err(m) => (Err(m), pdfs[pdfId := Failed(pdf, m)], kept)
      case Ok((pageCount, docs)) =>
        (Ok(Done(pageCount, |docs|)), pdfs[pdfId := Completed(pdf, pageCount, |docs|, now)], kept + docs)
  }

  /** The rows a successful attempt builds all belong to the document. */
  lemma AttemptRowsTagged(pdfId: string, userId: string, fetched: Result<ParsedPdf, string>, chunkSize: int, chunkOverlap: int)
    ensures var a := Attempt(pdfId, userId, fetched, chunkSize, chunkOverlap);
            a.Ok? ==> KeysUnique(a.value.1) && forall k :: 0 <= k < |a.value.1| ==> a.value.1[k].pdfId == pdfId
  {
    if fetched.Ok? {
      var results := PageResults(PageTexts(fetched.value), chunkSize, chunkOverlap);
      if RowsOf(pdfId, userId, results).Ok? {
        RowsOfShape(pdfId, userId, results);
      }
    }
  }

  /** `processPdf` touches one document: the set of documents stays the
      same, every other document is unchanged, and so are the rows of every
      other document. A document that cannot be claimed is skipped with no
      change at all. */
  lemma ProcessStepFrame(pdfs: map<string, Pdf>, chunks: seq<Row>, pdfId: string, fetched: Result<ParsedPdf, string>,
                         chunkSize: int, chunkOverlap: int, now: int)
    ensures var s := ProcessStep(pdfs, chunks, pdfId, fetched, chunkSize, chunkOverlap, now);
            && s.1.Keys == pdfs.Keys
            && (forall id :: id in pdfs && id != pdfId ==> s.1[id] == pdfs[id])
            && WithoutPdf(s.2, pdfId) == WithoutPdf(chunks, pdfId)
            && (!Claimable(pdfs, pdfId) ==> s == (Ok(Skipped), pdfs, chunks))
  {
    if Claimable(pdfs, pdfId) {
      var a := Attempt(pdfId, pdfs[pdfId].userId, fetched, chunkSize, chunkOverlap);
      AttemptRowsTagged(pdfId, pdfs[pdfId].userId, fetched, chunkSize, chunkOverlap);
      if a.Ok? {
        ReplaceRows(chunks, pdfId, a.value.1);
      } else {
        DeleteRows(chunks, pdfId);
      }
    }
  }

  /** What `processPdf` leaves behind for a claimable document. On success
      the document is "completed", its chunk count is the number of rows it
      now has, and a second run skips it. On failure it is "failed" with the
      error's message, has no rows, and stays claimable for the next run. */
  lemma ProcessStepOutcome(pdfs: map<string, Pdf>, chunks: seq<Row>, pdfId: string, fetched: Result<ParsedPdf, string>,
                           chunkSize: int, chunkOverlap: int, now: int)
    requires Claimable(pdfs, pdfId)
    ensures var s := ProcessStep(pdfs, chunks, pdfId, fetched, chunkSize, chunkOverlap, now);
            && pdfId in s.1
            && (s.0.Ok? ==> && s.0.value.Done?
                            && s.1[pdfId].status == "completed"
                            && s.1[pdfId].textChunkCount == Some(|OfPdf(s.2, pdfId)|)
                            && s.1[pdfId].textExtractionError.None?
                            && !Claimable(s.1, pdfId))
            && (s.0.Err? ==> && s.1[pdfId].status == "failed"
                             && s.1[pdfId].textExtractionError == Some(s.0.error)
                             && OfPdf(s.2, pdfId) == []
                             && Claimable(s.1, pdfId))
  {
    var a := Attempt(pdfId, pdfs[pdfId].userId, fetched, chunkSize, chunkOverlap);
    AttemptRowsTagged(pdfId, pdfs[pdfId].userId, fetched, chunkSize, chunkOverlap);
    if a.Ok? {
      ReplaceRows(chunks, pdfId, a.value.1);
    } else {
      DeleteRows(chunks, pdfId);
    }
  }

  /** `processPdf` on the store. */
  method ProcessPdf(store: PdfStore, pdfId: string, fetched: Result<ParsedPdf, string>,
                    chunkSize: int, chunkOverlap: int, now: int)
    returns (r: Result<Outcome, string>)
    requires store.Valid()
    modifies store
    ensures store.Valid()
    ensures (r, store.pdfs, store.chunks)
         == ProcessStep(old(store.pdfs), old(store.chunks), pdfId, fetched, chunkSize, chunkOverlap, now)
  {
    ghost var original := if pdfId in store.pdfs then store.pdfs[pdfId] else Pdf("", "", 0, None, None, None, None);
    var claimed := Claim(store, pdfId);
    if claimed.None? {
      return Ok(Skipped);
    }
    var pdf := claimed.value;
    assert Claimable(old(store.pdfs), pdfId) && pdf.userId == original.userId;
    ghost var pdfs0 := old(store.pdfs);
    store.DeleteChunks(pdfId);
    var attempt := BuildRows(pdfId, pdf.userId, fetched, chunkSize, chunkOverlap);
    if attempt.Ok? {
      var (pageCount, docs) := attempt.value;
      if |docs| > 0 {
        ReplaceRowsFits(old(store.chunks), pdfId, docs);
        var ok := store.InsertChunks(docs);
        assert ok;
      } else {
        assert store.chunks + docs == store.chunks;
      }
      var done := pdf.(status := "completed", pageCount := Some(pageCount),
                       textChunkCount := Some(|docs|), textExtractedAt := Some(now),
                       textExtractionError := None);
      assert done == Completed(original, pageCount, |docs|, now);
      store.Put(pdfId, done);
      assert store.pdfs == pdfs0[pdfId := done] by { UpdateTwice(pdfs0, pdfId, pdf, done); }
      return Ok(Done(pageCount, |docs|));
    }
    var failed := pdf.(status := "failed", textExtractionError := Some(attempt.error));
    assert failed == Failed(original, attempt.error);
    store.Put(pdfId, failed);
    assert store.pdfs == pdfs0[pdfId := failed] by { UpdateTwice(pdfs0, pdfId, pdf, failed); }
    return Err(attempt.error);
  }

  lemma UpdateTwice(m: map<string, Pdf>, k: string, a: Pdf, b: Pdf)
    ensures m[k := a][k := b] == m[k := b]
  {
  }

  /** The steps of the `try` between the delete and the insert; the rows it
      builds all belong to the document and have distinct keys. */
  method BuildRows(pdfId: string, userId: string, fetched: Result<ParsedPdf, string>, chunkSize: int, chunkOverlap: int)
    returns (attempt: Result<(int, seq<Row>), string>)
    ensures attempt == Attempt(pdfId, userId, fetched, chunkSize, chunkOverlap)
    ensures attempt.Ok? ==> KeysUnique(attempt.value.1)
                            && forall k :: 0 <= k < |attempt.value.1| ==> attempt.value.1[k].pdfId == pdfId
  {
    if fetched.Err? {
      return Err(fetched.error);
    }
    var parsed := fetched.value;
    var pages := PageTexts(parsed);
    var docs := BuildPageRows(pdfId, userId, pages, chunkSize, chunkOverlap);
    if docs.Err? {
      return Err(ChunkErrorMessage(docs.error));
    }
    RowsOfShape(pdfId, userId, PageResults(pages, chunkSize, chunkOverlap));
    return Ok((PageCount(parsed), docs.value));
  }

  /** One turn of `main`'s loop, seen from the outside: `processPdf` on
      one document, with the effects the run relies on. */
  method ProcessListed(store: PdfStore, pdfId: string, fetched: Result<ParsedPdf, string>,
                       chunkSize: int, chunkOverlap: int, now: int)
    returns (r: Result<Outcome, string>)
    requires store.Valid()
    modifies store
    ensures store.Valid()
    ensures store.pdfs.Keys == old(store.pdfs).Keys
    ensures forall id :: id in old(store.pdfs) && id != pdfId ==> store.pdfs[id] == old(store.pdfs)[id]
    ensures !Claimable(old(store.pdfs), pdfId) ==> r == Ok(Skipped) && store.pdfs == old(store.pdfs)
    ensures Claimable(old(store.pdfs), pdfId) && r.Ok? ==> store.pdfs[pdfId].status == "completed"
    ensures r.Err? ==> store.pdfs[pdfId].status == "failed" && store.pdfs[pdfId].textExtractionError == Some(r.error)
  {
    ghost var before := store.pdfs;
    ghost var rows := store.chunks;
    r := ProcessPdf(store, pdfId, fetched, chunkSize, chunkOverlap, now);
    ProcessStepFrame(before, rows, pdfId, fetched, chunkSize, chunkOverlap, now);
    if Claimable(before, pdfId) {
      ProcessStepOutcome(before, rows, pdfId, fetched, chunkSize, chunkOverlap, now);
    }
  }

  // The batch run.

  /** The documents a run works through: the one named by `--pdfId` if it
      exists, else the oldest "uploaded" or "failed" ones, as many as the
      cursor limit `--limit` allows (all of them for 0). */
  predicate Selection(pdfs: map<string, Pdf>, args: Args, ids: seq<string>) {
    if args.pdfId.Some? && args.pdfId.value != [] then
      ids == (if args.pdfId.value in pdfs then [args.pdfId.value] else [])
    else OldestFirst(pdfs, {"uploaded", "failed"}, CursorLimit(args.limit), ids)
  }

  /** `main`'s query: the document named by `--pdfId`, or the oldest
      "uploaded" or "failed" ones. */
  method SelectIds(store: PdfStore, args: Args) returns (ids: seq<string>)
    ensures Selection(store.pdfs, args, ids)
    ensures forall a, b :: 0 <= a < b < |ids| ==> ids[a] != ids[b]
    ensures (args.pdfId.None? || args.pdfId.value == []) && args.limit == 0 ==>
              forall id :: id in ids <==> Claimable(store.pdfs, id)
  {
    if args.pdfId.Some? && args.pdfId.value != [] {
      ids := if args.pdfId.value in store.pdfs then [args.pdfId.value] else [];
    } else {
      ids := store.SelectOldest({"uploaded", "failed"}, CursorLimit(args.limit));
      if args.limit == 0 {
        UnlimitedTakesAll(store.pdfs, {"uploaded", "failed"}, ids);
      }
    }
  }

  /** What one turn of the batch did to the documents, as `ProcessListed`
      states it. */
  ghost predicate ListedStep(before: map<string, Pdf>, after: map<string, Pdf>, pdfId: string, r: Result<Outcome, string>) {
    && after.Keys == before.Keys
    && (forall id :: id in before && id != pdfId ==> after[id] == before[id])
    && (!Claimable(before, pdfId) ==> r == Ok(Skipped) && after == before)
    && (Claimable(before, pdfId) && r.Ok? ==> after[pdfId].status == "completed")
    && (r.Err? ==> pdfId in after && after[pdfId].status == "failed" && after[pdfId].textExtractionError.Some?)
  }

  /** What the batch keeps after `i` turns over distinct `ids`: each of the
      first `i` documents is completed or was never claimable, and every
      other document, like every document that was never claimable, is as
      it was. */
  ghost predicate RunSoFar(pdfs0: map<string, Pdf>, pdfs: map<string, Pdf>, ids: seq<string>, i: nat)
    requires i <= |ids|
  {
    && pdfs.Keys == pdfs0.Keys
    && (forall k :: 0 <= k < i ==>
          ids[k] in pdfs && (pdfs[ids[k]].status == "completed" || !Claimable(pdfs0, ids[k])))
    && (forall id :: id in pdfs0 && id !in ids[..i] ==> pdfs[id] == pdfs0[id])
    && (forall id :: id in pdfs0 && !Claimable(pdfs0, id) ==> pdfs[id] == pdfs0[id])
  }

  /** A turn that does not fail extends what the batch keeps by one id. */
  lemma TurnDone(pdfs0: map<string, Pdf>, before: map<string, Pdf>, after: map<string, Pdf>,
                 ids: seq<string>, i: nat, r: Result<Outcome, string>)
    requires i < |ids| && forall a, b :: 0 <= a < b < |ids| ==> ids[a] != ids[b]
    requires ids[i] in pdfs0
    requires RunSoFar(pdfs0, before, ids, i)
    requires ListedStep(before, after, ids[i], r) && r.Ok?
    ensures RunSoFar(pdfs0, after, ids, i + 1)
  {
    var id0 := ids[i];
    assert id0 !in ids[..i];
    assert before[id0] == pdfs0[id0];
    assert Claimable(before, id0) == Claimable(pdfs0, id0);
    forall k | 0 <= k < i + 1
      ensures ids[k] in after && (after[ids[k]].status == "completed" || !Claimable(pdfs0, ids[k]))
    {
      if k < i {
        assert ids[k] != id0;
      }
    }
    forall id | id in pdfs0 && id !in ids[..i + 1]
      ensures after[id] == pdfs0[id]
    {
      assert ids[..i + 1] == ids[..i] + [id0];
    }
  }

  /** A failing turn leaves its document failed, the documents before it
      completed or skipped, and the ones after it untouched. */
  lemma TurnFailed(pdfs0: map<string, Pdf>, before: map<string, Pdf>, after: map<string, Pdf>,
                   ids: seq<string>, i: nat, r: Result<Outcome, string>)
    requires i < |ids| && forall a, b :: 0 <= a < b < |ids| ==> ids[a] != ids[b]
    requires forall k :: 0 <= k < |ids| ==> ids[k] in pdfs0
    requires RunSoFar(pdfs0, before, ids, i)
    requires ListedStep(before, after, ids[i], r) && r.Err?
    ensures after.Keys == pdfs0.Keys
    ensures after[ids[i]].status == "failed" && after[ids[i]].textExtractionError.Some?
    ensures forall k :: 0 <= k < i ==> after[ids[k]].status == "completed" || !Claimable(pdfs0, ids[k])
    ensures forall k :: i < k < |ids| ==> after[ids[k]] == pdfs0[ids[k]]
    ensures forall id :: id in pdfs0 && id !in ids ==> after[id] == pdfs0[id]
    ensures forall id :: id in pdfs0 && !Claimable(pdfs0, id) ==> after[id] == pdfs0[id]
  {
    assert ids[i] !in ids[..i];
    assert before[ids[i]] == pdfs0[ids[i]];
    forall k | i < k < |ids|
      ensures after[ids[k]] == pdfs0[ids[k]]
    {
      assert ids[k] !in ids[..i] && ids[k] != ids[i];
    }
    forall id | id in pdfs0 && id !in ids
      ensures after[id] == pdfs0[id]
    {
      assert id !in ids[..i];
    }
  }

  /** A batch that ran through every id keeps what `RunSoFar` says of all
      of them. */
  lemma RunFinished(pdfs0: map<string, Pdf>, pdfs: map<string, Pdf>, ids: seq<string>)
    requires RunSoFar(pdfs0, pdfs, ids, |ids|)
    ensures forall i :: 0 <= i < |ids| ==> pdfs[ids[i]].status == "completed" || !Claimable(pdfs0, ids[i])
    ensures forall id :: id in pdfs0 && id !in ids ==> pdfs[id] == pdfs0[id]
  {
    assert ids[..|ids|] == ids;
  }

  /** `main` after connecting: process the selected documents in order;
      the first error ends the run with exit code 1, else the code is 0.
      `fetch` gives each document's download-and-parse result. */
  method RunExtraction(store: PdfStore, args: Args, fetch: string -> Result<ParsedPdf, string>, now: int)
    returns (exitCode: int, ghost ids: seq<string>)
    requires store.Valid()
    modifies store
    ensures store.Valid()
    ensures Selection(old(store.pdfs), args, ids)
    ensures store.pdfs.Keys == old(store.pdfs).Keys
    ensures exitCode == 0 || exitCode == 1
    ensures exitCode == 0 ==> forall i :: 0 <= i < |ids| ==>
      store.pdfs[ids[i]].status == "completed" || !Claimable(old(store.pdfs), ids[i])
    ensures exitCode == 1 ==> exists i :: && 0 <= i < |ids|
                                          && store.pdfs[ids[i]].status == "failed"
                                          && store.pdfs[ids[i]].textExtractionError.Some?
                                          && (forall k :: 0 <= k < i ==>
                                                store.pdfs[ids[k]].status == "completed" || !Claimable(old(store.pdfs), ids[k]))
                                          && (forall k :: i < k < |ids| ==> store.pdfs[ids[k]] == old(store.pdfs)[ids[k]])
    ensures forall id :: id in old(store.pdfs) && id !in ids ==> store.pdfs[id] == old(store.pdfs)[id]
    ensures forall id :: id in old(store.pdfs) && !Claimable(old(store.pdfs), id) ==> store.pdfs[id] == old(store.pdfs)[id]
  {
    var selected := SelectIds(store, args);
    ids := selected;
    ghost var pdfs0 := store.pdfs;
    assert forall k :: 0 <= k < |selected| ==> selected[k] in pdfs0;
    for i := 0 to |selected|
      invariant store.Valid()
      invariant RunSoFar(pdfs0, store.pdfs, selected, i)
    {
      ghost var before := store.pdfs;
      var r := ProcessListed(store, selected[i], fetch(selected[i]), args.chunkSize, args.chunkOverlap, now);
      assert ListedStep(before, store.pdfs, selected[i], r);
      if r.Err? {
        TurnFailed(pdfs0, before, store.pdfs, selected, i, r);
        return 1, ids;
      }
      TurnDone(pdfs0, before, store.pdfs, selected, i, r);
    }
    RunFinished(pdfs0, store.pdfs, selected);
    return 0, ids;
  }
}
