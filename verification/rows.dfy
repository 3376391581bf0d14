/** The per-page chunk rows both text-extraction workers build
    (workers/helpers-pdf-processing.ts:354-376 and
    workers/extract-pdf-text.ts:171-193): every page is chunked in turn and
    each chunk becomes a row tagged with its page number, its index on the
    page and its length. An error thrown by `chunkText` aborts the build. */
module PageRows {
  import opened Wrappers
  import opened Text
  import opened Chunker
  import opened Seqs

  /** A `pdf_text_chunks` document. */
  datatype Row = Row(pdfId: string, userId: string, pageNumber: nat, chunkIndex: nat, text: string, charCount: nat)

  /** The rows of one page (0-based index `p`): page number `p + 1`, chunk
      indexes from 0, and each chunk's length. */
  function RowsForPage(pdfId: string, userId: string, p: nat, chunks: seq<string>): (rows: seq<Row>)
    ensures |rows| == |chunks|
  {
    seq(|chunks|, j requires 0 <= j < |chunks| => Row(pdfId, userId, p + 1, j, chunks[j], |chunks[j]|))
  }

  /** One more chunk adds its row at the end. */
  lemma RowsForPageSnoc(pdfId: string, userId: string, p: nat, chunks: seq<string>, j: nat)
    requires j < |chunks|
    ensures RowsForPage(pdfId, userId, p, chunks[..j + 1])
      == RowsForPage(pdfId, userId, p, chunks[..j]) + [Row(pdfId, userId, p + 1, j, chunks[j], |chunks[j]|)]
  {
    var a := RowsForPage(pdfId, userId, p, chunks[..j + 1]);
    var b := RowsForPage(pdfId, userId, p, chunks[..j]) + [Row(pdfId, userId, p + 1, j, chunks[j], |chunks[j]|)];
    forall k | 0 <= k < j + 1 ensures a[k] == b[k] {
      assert chunks[..j + 1][k] == chunks[k];
      if k < j { assert chunks[..j][k] == chunks[k]; }
    }
  }

  /** The outcome of `chunkText` on every page. */
  function PageResults(pages: seq<string>, chunkSize: int, chunkOverlap: int): (rs: seq<Result<seq<string>, ChunkError>>)
    ensures |rs| == |pages|
  {
    seq(|pages|, p requires 0 <= p < |pages| => ChunkTextSpec(pages[p], chunkSize, chunkOverlap))
  }

  /** The rows built from the pages' chunking outcomes, page after page; the
      first failing page's error ends the build. */
  function RowsOf(pdfId: string, userId: string, results: seq<Result<seq<string>, ChunkError>>): Result<seq<Row>, ChunkError>
    decreases |results|
  {
    if results == [] then Ok([])
    else
      var n := |results| - 1;
      match RowsOf(pdfId, userId, results[..n])
      case Err(e) => Err(e)
      case Ok(rows) =>
        match results[n]
        case Err(e) => Err(e)
        case Ok(chunks) => Ok(rows + RowsForPage(pdfId, userId, n, chunks))
  }

  /** The number of chunks over all pages that chunked. */
  function ChunkCount(results: seq<Result<seq<string>, ChunkError>>): nat
    decreases |results|
  {
    if results == [] then 0
    else
      var n := |results| - 1;
      ChunkCount(results[..n]) + match results[n] case Ok(chunks) => |chunks| case Err(_) => 0
  }

  /** Row `a` comes before row `b` in (page, chunk index) order. */
  predicate KeyBefore(a: Row, b: Row) {
    a.pageNumber < b.pageNumber || (a.pageNumber == b.pageNumber && a.chunkIndex < b.chunkIndex)
  }

  /** The rows are in strictly increasing (page, chunk index) order. */
  predicate KeysIncrease(rows: seq<Row>) {
    forall i, j :: 0 <= i < j < |rows| ==> KeyBefore(rows[i], rows[j])
  }

  /** No two rows share a (page, chunk index) key: the unique index of
      `pdf_text_chunks` (with the pdf id, which all rows share). */
  predicate KeysUnique(rows: seq<Row>) {
    forall i, j :: 0 <= i < |rows| && 0 <= j < |rows| && i != j ==>
      (rows[i].pageNumber, rows[i].chunkIndex) != (rows[j].pageNumber, rows[j].chunkIndex)
  }

  /** Each row belongs to the given pdf and user, is on one of the first `n`
      pages, and records its text's length. */
  predicate RowsTagged(rows: seq<Row>, pdfId: string, userId: string, n: nat) {
    forall k :: 0 <= k < |rows| ==>
      rows[k].pdfId == pdfId && rows[k].userId == userId
      && 1 <= rows[k].pageNumber <= n && rows[k].charCount == |rows[k].text|
  }

  lemma IncreasingKeysAreUnique(rows: seq<Row>)
    requires KeysIncrease(rows)
    ensures KeysUnique(rows)
  {
    forall i, j | 0 <= i < |rows| && 0 <= j < |rows| && i != j
      ensures (rows[i].pageNumber, rows[i].chunkIndex) != (rows[j].pageNumber, rows[j].chunkIndex)
    {
      if i < j { assert KeyBefore(rows[i], rows[j]); } else { assert KeyBefore(rows[j], rows[i]); }
    }
  }

  /** A successful build tags every row with its pdf, user, page and length,
      keeps the rows in (page, chunk index) order with unique keys, and
      holds one row per chunk. */
  lemma {:induction false} RowsOfShape(pdfId: string, userId: string, results: seq<Result<seq<string>, ChunkError>>)
    requires RowsOf(pdfId, userId, results).Ok?
    ensures var rows := RowsOf(pdfId, userId, results).value;
      && RowsTagged(rows, pdfId, userId, |results|)
      && KeysIncrease(rows) && KeysUnique(rows)
      && |rows| == ChunkCount(results)
    decreases |results|
  {
    var rows := RowsOf(pdfId, userId, results).value;
    if results != [] {
      var n := |results| - 1;
      RowsOfShape(pdfId, userId, results[..n]);
      var prev := RowsOf(pdfId, userId, results[..n]).value;
      var page := RowsForPage(pdfId, userId, n, results[n].value);
      assert rows == prev + page;
      forall i, j | 0 <= i < j < |rows| ensures KeyBefore(rows[i], rows[j]) {
        if j < |prev| {
          assert KeyBefore(prev[i], prev[j]);
        } else if i < |prev| {
          assert rows[i].pageNumber == prev[i].pageNumber <= n;
        } else {
          assert rows[i] == page[i - |prev|] && rows[j] == page[j - |prev|];
        }
      }
    }
    IncreasingKeysAreUnique(rows);
  }

  /** The rows of one page number, in order. */
  function RowsOnPage(rows: seq<Row>, pageNumber: nat): (r: seq<Row>)
    ensures |r| <= |rows|
    decreases |rows|
  {
    if rows == [] then []
    else (if rows[0].pageNumber == pageNumber then [rows[0]] else []) + RowsOnPage(rows[1..], pageNumber)
  }

  lemma {:induction false} RowsOnPageConcat(a: seq<Row>, b: seq<Row>, pageNumber: nat)
    ensures RowsOnPage(a + b, pageNumber) == RowsOnPage(a, pageNumber) + RowsOnPage(b, pageNumber)
    decreases |a|
  {
    if a != [] {
      var head := if a[0].pageNumber == pageNumber then [a[0]] else [];
      calc {
        RowsOnPage(a + b, pageNumber);
        { assert (a + b)[0] == a[0]; }
        head + RowsOnPage((a + b)[1..], pageNumber);
        { assert (a + b)[1..] == a[1..] + b; }
        head + RowsOnPage(a[1..] + b, pageNumber);
        { RowsOnPageConcat(a[1..], b, pageNumber); }
        head + (RowsOnPage(a[1..], pageNumber) + RowsOnPage(b, pageNumber));
        { AppendAssoc(head, RowsOnPage(a[1..], pageNumber), RowsOnPage(b, pageNumber)); }
        (head + RowsOnPage(a[1..], pageNumber)) + RowsOnPage(b, pageNumber);
      }
    } else {
      assert a + b == b;
    }
  }

  lemma {:induction false} RowsOnPageAll(rows: seq<Row>, pageNumber: nat)
    requires forall k :: 0 <= k < |rows| ==> rows[k].pageNumber == pageNumber
    ensures RowsOnPage(rows, pageNumber) == rows
    decreases |rows|
  {
    if rows != [] {
      RowsOnPageAll(rows[1..], pageNumber);
    }
  }

  lemma {:induction false} RowsOnPageNone(rows: seq<Row>, pageNumber: nat)
    requires forall k :: 0 <= k < |rows| ==> rows[k].pageNumber != pageNumber
    ensures RowsOnPage(rows, pageNumber) == []
    decreases |rows|
  {
    if rows != [] {
      RowsOnPageNone(rows[1..], pageNumber);
    }
  }

  /** After a successful build the rows of page `p + 1` are exactly that
      page's chunks, in order, indexed from 0: the chunk index restarts on
      every page. */
  lemma {:induction false} RowsOfPage(pdfId: string, userId: string, results: seq<Result<seq<string>, ChunkError>>, p: nat)
    requires RowsOf(pdfId, userId, results).Ok? && p < |results|
    ensures results[p].Ok?
    ensures RowsOnPage(RowsOf(pdfId, userId, results).value, p + 1) == RowsForPage(pdfId, userId, p, results[p].value)
    decreases |results|
  {
    var n := |results| - 1;
    var prev := RowsOf(pdfId, userId, results[..n]).value;
    var page := RowsForPage(pdfId, userId, n, results[n].value);
    RowsOnPageConcat(prev, page, p + 1);
    RowsOfShape(pdfId, userId, results[..n]);
    if p == n {
      RowsOnPageNone(prev, p + 1);
      RowsOnPageAll(page, p + 1);
    } else {
      RowsOfPage(pdfId, userId, results[..n], p);
      assert results[..n][p] == results[p];
      RowsOnPageNone(page, p + 1);
    }
  }

  /** The build fails exactly when some page fails, and then with the error
      of the first page that fails. */
  lemma {:induction false} RowsOfErr(pdfId: string, userId: string, results: seq<Result<seq<string>, ChunkError>>)
    ensures RowsOf(pdfId, userId, results).Err? <==> exists p :: 0 <= p < |results| && results[p].Err?
    ensures RowsOf(pdfId, userId, results).Err? ==>
      exists p :: 0 <= p < |results| && results[p] == Err(RowsOf(pdfId, userId, results).error)
        && forall q :: 0 <= q < p ==> results[q].Ok?
    decreases |results|
  {
    if results != [] {
      var n := |results| - 1;
      var init := results[..n];
      RowsOfErr(pdfId, userId, init);
      if RowsOf(pdfId, userId, init).Err? {
        var p :| 0 <= p < |init| && init[p] == Err(RowsOf(pdfId, userId, init).error)
          && forall q :: 0 <= q < p ==> init[q].Ok?;
        assert results[p] == init[p];
        assert forall q :: 0 <= q < p ==> results[q] == init[q];
      } else {
        assert forall q :: 0 <= q < n ==> results[q] == init[q];
        if results[n].Err? {
          assert forall q :: 0 <= q < n ==> results[q].Ok?;
        }
      }
    }
  }

  /** An error, once met, is the outcome of the whole build. */
  lemma {:induction false} ErrSticks(pdfId: string, userId: string, results: seq<Result<seq<string>, ChunkError>>, i: nat)
    requires i <= |results| && RowsOf(pdfId, userId, results[..i]).Err?
    ensures RowsOf(pdfId, userId, results) == RowsOf(pdfId, userId, results[..i])
    decreases |results| - i
  {
    if i < |results| {
      assert results[..i + 1][..i] == results[..i];
      ErrSticks(pdfId, userId, results, i + 1);
    } else {
      assert results[..i] == results;
    }
  }

  /** Over real pages: the build fails exactly when the clamped overlap is
      not below the clamped size and some page is not blank, and the error
      carries the clamped values. */
  lemma PageRowsErr(pdfId: string, userId: string, pages: seq<string>, chunkSize: int, chunkOverlap: int)
    ensures var r := RowsOf(pdfId, userId, PageResults(pages, chunkSize, chunkOverlap));
      && (r.Err? <==> EffectiveOverlap(chunkOverlap) >= EffectiveSize(chunkSize)
                      && exists p :: 0 <= p < |pages| && !AllWs(pages[p]))
      && (r.Err? ==> r.error == InvalidChunkParams(EffectiveOverlap(chunkOverlap), EffectiveSize(chunkSize)))
  {
    var results := PageResults(pages, chunkSize, chunkOverlap);
    RowsOfErr(pdfId, userId, results);
    if EffectiveOverlap(chunkOverlap) >= EffectiveSize(chunkSize) && exists p :: 0 <= p < |pages| && !AllWs(pages[p]) {
      var p :| 0 <= p < |pages| && !AllWs(pages[p]);
      assert results[p].Err?;
    }
  }

  /** A blank page contributes no rows. */
  lemma BlankPageNoRows(pdfId: string, userId: string, pages: seq<string>, chunkSize: int, chunkOverlap: int, p: nat)
    requires RowsOf(pdfId, userId, PageResults(pages, chunkSize, chunkOverlap)).Ok?
    requires p < |pages| && AllWs(pages[p])
    ensures RowsOnPage(RowsOf(pdfId, userId, PageResults(pages, chunkSize, chunkOverlap)).value, p + 1) == []
  {
    RowsOfPage(pdfId, userId, PageResults(pages, chunkSize, chunkOverlap), p);
  }

  /** The nested `forEach` of the row builders: chunk every page in order
      and push its rows; a `chunkText` error aborts the build. */
  method BuildPageRows(pdfId: string, userId: string, pages: seq<string>, chunkSize: int, chunkOverlap: int)
    returns (r: Result<seq<Row>, ChunkError>)
    ensures r == RowsOf(pdfId, userId, PageResults(pages, chunkSize, chunkOverlap))
  {
    ghost var results := PageResults(pages, chunkSize, chunkOverlap);
    var docs: seq<Row> := [];
    var idx := 0;
    while idx < |pages|
      invariant idx <= |pages|
      invariant RowsOf(pdfId, userId, results[..idx]) == Ok(docs)
    {
      var chunks := ChunkText(pages[idx], chunkSize, chunkOverlap);
      assert results[..idx + 1][..idx] == results[..idx];
      if chunks.Err? {
        r := Err(chunks.error);
        ErrSticks(pdfId, userId, results, idx + 1);
        return;
      }
      docs := PushPageRows(docs, pdfId, userId, idx, chunks.value);
      idx := idx + 1;
    }
    assert results[..idx] == results;
    r := Ok(docs);
  }

  /** The inner `forEach`: one row per chunk of page `p`, pushed in order. */
  method PushPageRows(docs: seq<Row>, pdfId: string, userId: string, p: nat, chunks: seq<string>)
    returns (docs': seq<Row>)
    ensures docs' == docs + RowsForPage(pdfId, userId, p, chunks)
  {
    docs' := docs;
    var chunkIndex := 0;
    while chunkIndex < |chunks|
      invariant chunkIndex <= |chunks|
      invariant docs' == docs + RowsForPage(pdfId, userId, p, chunks[..chunkIndex])
    {
      var text := chunks[chunkIndex];
      RowsForPageSnoc(pdfId, userId, p, chunks, chunkIndex);
      AppendAssoc(docs, RowsForPage(pdfId, userId, p, chunks[..chunkIndex]), [Row(pdfId, userId, p + 1, chunkIndex, text, |text|)]);
      docs' := docs' + [Row(pdfId, userId, p + 1, chunkIndex, text, |text|)];
      chunkIndex := chunkIndex + 1;
    }
    assert chunks[..chunkIndex] == chunks;
  }
}
