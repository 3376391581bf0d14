/** The two collections the workers read and write: the PDF documents with
    their processing status, and the `pdf_text_chunks` rows. The database
    becomes one object holding both; its operations are the queries the
    workers issue, run one after another. */
module Store {
  import opened Wrappers
  import opened Seqs
  import opened PageRows

  /** A PDF document as the workers see it. `createdAt` is the creation
      timestamp the batch queries sort by. */
  datatype Pdf = Pdf(
    userId: string,
    status: string,
    createdAt: int,
    pageCount: Option<int>,
    textChunkCount: Option<nat>,
    textExtractedAt: Option<int>,
    textExtractionError: Option<string>)

  /** The unique index of the chunk collection: (pdfId, pageNumber, chunkIndex). */
  function Key(r: Row): (string, nat, nat) {
    (r.pdfId, r.pageNumber, r.chunkIndex)
  }

  predicate HasKey(rows: seq<Row>, k: (string, nat, nat)) {
    exists i :: 0 <= i < |rows| && Key(rows[i]) == k
  }

  /** No two rows share a key. */
  predicate KeysDistinct(rows: seq<Row>) {
    forall i, j :: 0 <= i < j < |rows| ==> Key(rows[i]) != Key(rows[j])
  }

  /** `deleteMany({ pdfId })`: the rows of other documents, in order. */
  function WithoutPdf(rows: seq<Row>, pdfId: string): (r: seq<Row>)
    ensures forall x :: x in r <==> x in rows && x.pdfId != pdfId
  {
    FilterExact((x: Row) => x.pdfId != pdfId, rows);
    Filter((x: Row) => x.pdfId != pdfId, rows)
  }

  /** The rows of one document, in order. */
  function OfPdf(rows: seq<Row>, pdfId: string): (r: seq<Row>)
    ensures forall x :: x in r <==> x in rows && x.pdfId == pdfId
  {
    FilterExact((x: Row) => x.pdfId == pdfId, rows);
    Filter((x: Row) => x.pdfId == pdfId, rows)
  }

  /** Replacing a document's rows: after the delete and the append, the
      document has exactly the new rows, and every other document exactly
      the rows it had. */
  lemma ReplaceRows(chunks: seq<Row>, pdfId: string, docs: seq<Row>)
    requires forall k :: 0 <= k < |docs| ==> docs[k].pdfId == pdfId
    ensures OfPdf(WithoutPdf(chunks, pdfId) + docs, pdfId) == docs
    ensures WithoutPdf(WithoutPdf(chunks, pdfId) + docs, pdfId) == WithoutPdf(chunks, pdfId)
  {
    var kept := WithoutPdf(chunks, pdfId);
    assert forall k :: 0 <= k < |kept| ==> kept[k] in kept;
    FilterConcat((x: Row) => x.pdfId == pdfId, kept, docs);
    FilterNone((x: Row) => x.pdfId == pdfId, kept);
    FilterAll((x: Row) => x.pdfId == pdfId, docs);
    FilterConcat((x: Row) => x.pdfId != pdfId, kept, docs);
    FilterAll((x: Row) => x.pdfId != pdfId, kept);
    FilterNone((x: Row) => x.pdfId != pdfId, docs);
  }

  /** After the delete alone the document has no rows, and the others keep
      theirs. */
  lemma DeleteRows(chunks: seq<Row>, pdfId: string)
    ensures OfPdf(WithoutPdf(chunks, pdfId), pdfId) == []
    ensures WithoutPdf(WithoutPdf(chunks, pdfId), pdfId) == WithoutPdf(chunks, pdfId)
  {
    ReplaceRows(chunks, pdfId, []);
    assert WithoutPdf(chunks, pdfId) + [] == WithoutPdf(chunks, pdfId);
  }

  /** `insertMany(rows, { ordered: false })`: every row whose key is not yet
      taken goes in, in order; a row whose key is taken is refused and the
      call reports failure once all rows have been tried. */
  function InsertUnordered(existing: seq<Row>, rows: seq<Row>): (res: (seq<Row>, bool))
  {
    if rows == [] then (existing, true)
    else
      var (before, ok) := InsertUnordered(existing, rows[..|rows| - 1]);
      var last := rows[|rows| - 1];
      if HasKey(before, Key(last)) then (before, false) else (before + [last], ok)
  }

  /** Removing rows never creates a clash. */
  lemma {:induction false} FilterKeepsKeysDistinct(keep: Row -> bool, rows: seq<Row>)
    requires KeysDistinct(rows)
    ensures KeysDistinct(Filter(keep, rows))
    decreases |rows|
  {
    if rows != [] {
      var init := rows[..|rows| - 1];
      var last := rows[|rows| - 1];
      assert KeysDistinct(init) by {
        forall i, j | 0 <= i < j < |init| ensures Key(init[i]) != Key(init[j]) {
          assert init[i] == rows[i] && init[j] == rows[j];
        }
      }
      FilterKeepsKeysDistinct(keep, init);
      FilterExact(keep, init);
      var f := Filter(keep, init);
      if keep(last) {
        forall i | 0 <= i < |f| ensures Key(f[i]) != Key(last) {
          assert f[i] in init;
          var k :| 0 <= k < |init| && init[k] == f[i];
          assert rows[k] == f[i];
        }
      }
    }
  }

  /** The unique index holds after every insert. */
  lemma {:induction false} InsertKeepsKeysDistinct(existing: seq<Row>, rows: seq<Row>)
    requires KeysDistinct(existing)
    ensures KeysDistinct(InsertUnordered(existing, rows).0)
    decreases |rows|
  {
    if rows != [] {
      var init := rows[..|rows| - 1];
      var last := rows[|rows| - 1];
      InsertKeepsKeysDistinct(existing, init);
      var before := InsertUnordered(existing, init).0;
      if !HasKey(before, Key(last)) {
        var after := before + [last];
        forall i, j | 0 <= i < j < |after| ensures Key(after[i]) != Key(after[j]) {
          if j == |before| {
            assert Key(before[i]) != Key(last);
          }
        }
      }
    }
  }

  /** Every row's key is new: not taken before the call, nor by an earlier
      row of the same call. */
  predicate AllFresh(existing: seq<Row>, rows: seq<Row>) {
    KeysDistinct(rows) && forall i :: 0 <= i < |rows| ==> !HasKey(existing, Key(rows[i]))
  }

  /** One more row is fresh exactly when its key is taken neither by the
      existing rows nor by the rows before it. */
  lemma AllFreshSnoc(existing: seq<Row>, init: seq<Row>, last: Row)
    ensures AllFresh(existing, init + [last]) <==> AllFresh(existing, init) && !HasKey(existing + init, Key(last))
  {
    var rows := init + [last];
    var both := existing + init;
    if AllFresh(existing, rows) {
      assert AllFresh(existing, init) by {
        forall i | 0 <= i < |init| ensures init[i] == rows[i] { }
      }
      forall k | 0 <= k < |both| ensures Key(both[k]) != Key(last) {
        assert rows[|init|] == last;
        if k < |existing| {
          assert !HasKey(existing, Key(rows[|init|]));
          assert both[k] == existing[k];
        } else {
          assert both[k] == rows[k - |existing|];
          assert Key(rows[k - |existing|]) != Key(rows[|init|]);
        }
      }
    }
    if AllFresh(existing, init) && !HasKey(both, Key(last)) {
      forall i | 0 <= i < |rows| ensures !HasKey(existing, Key(rows[i])) {
        if i == |init| {
          forall k | 0 <= k < |existing| ensures Key(existing[k]) != Key(last) {
            assert both[k] == existing[k];
          }
        }
      }
      forall i, j | 0 <= i < j < |rows| ensures Key(rows[i]) != Key(rows[j]) {
        if j == |init| {
          assert both[|existing| + i] == rows[i];
        }
      }
    }
  }

  /** An insert succeeds, and appends every row, exactly when no row's key
      is already taken, neither before the call nor by an earlier row of the
      same call. */
  lemma {:induction false} InsertFresh(existing: seq<Row>, rows: seq<Row>)
    ensures InsertUnordered(existing, rows).1 <==> AllFresh(existing, rows)
    ensures InsertUnordered(existing, rows).1 ==> InsertUnordered(existing, rows).0 == existing + rows
    decreases |rows|
  {
    if rows != [] {
      var init := rows[..|rows| - 1];
      var last := rows[|rows| - 1];
      InsertFresh(existing, init);
      assert rows == init + [last];
      AllFreshSnoc(existing, init, last);
    }
  }

  /** Replacing a document's rows cannot trip the unique index: once its
      old rows are deleted, rows of that document with distinct (page, chunk
      index) keys all go in, after the other documents' rows. */
  lemma ReplaceRowsFits(chunks: seq<Row>, pdfId: string, rows: seq<Row>)
    requires forall k :: 0 <= k < |rows| ==> rows[k].pdfId == pdfId
    requires KeysUnique(rows)
    ensures InsertUnordered(WithoutPdf(chunks, pdfId), rows) == (WithoutPdf(chunks, pdfId) + rows, true)
  {
    var kept := WithoutPdf(chunks, pdfId);
    forall i | 0 <= i < |rows| ensures !HasKey(kept, Key(rows[i])) {
      forall k | 0 <= k < |kept| ensures Key(kept[k]) != Key(rows[i]) {
        assert kept[k] in kept;
      }
    }
    assert KeysDistinct(rows) by {
      forall i, j | 0 <= i < j < |rows| ensures Key(rows[i]) != Key(rows[j]) {
        assert (rows[i].pageNumber, rows[i].chunkIndex) != (rows[j].pageNumber, rows[j].chunkIndex);
      }
    }
    InsertFresh(kept, rows);
  }

  /** The documents whose status is one of `statuses`. */
  predicate Eligible(pdfs: map<string, Pdf>, statuses: set<string>, id: string) {
    id in pdfs && pdfs[id].status in statuses
  }

  /** The bound a cursor's `.limit(n)` puts on the number of documents:
      none for 0, and `|n|` otherwise (a negative limit returns as many
      documents, in a single batch). */
  function CursorLimit(n: int): (r: Option<nat>)
    ensures r.None? <==> n == 0
    ensures r.Some? ==> r.value > 0 && (r.value == n || r.value == -n)
  {
    if n == 0 then None else if n < 0 then Some(-n) else Some(n)
  }

  /** `find({ status: { $in: statuses } }).sort({ createdAt: 1 }).limit(n)`
      with `limit == CursorLimit(n)`: distinct eligible documents, oldest
      first, at most `limit` of them when there is a bound, and none left
      out that is older than one taken; a document is left out only when
      the bound was reached. */
  predicate OldestFirst(pdfs: map<string, Pdf>, statuses: set<string>, limit: Option<nat>, ids: seq<string>) {
    && (limit.Some? ==> |ids| <= limit.value)
    && (forall i :: 0 <= i < |ids| ==> Eligible(pdfs, statuses, ids[i]))
    && (forall i, j :: 0 <= i < j < |ids| ==> ids[i] != ids[j])
    && (forall i, j :: 0 <= i < j < |ids| && ids[i] in pdfs && ids[j] in pdfs ==>
          pdfs[ids[i]].createdAt <= pdfs[ids[j]].createdAt)
    && (forall id :: id in pdfs && pdfs[id].status in statuses && id !in ids ==>
          && limit.Some? && |ids| == limit.value
          && forall i :: 0 <= i < |ids| && ids[i] in pdfs ==> pdfs[ids[i]].createdAt <= pdfs[id].createdAt)
  }

  /** Without a bound (`.limit(0)`) the query returns every eligible
      document, each once. */
  lemma UnlimitedTakesAll(pdfs: map<string, Pdf>, statuses: set<string>, ids: seq<string>)
    requires OldestFirst(pdfs, statuses, None, ids)
    ensures forall id :: id in ids <==> Eligible(pdfs, statuses, id)
  {
  }

  /** The batch query part way: `left` holds exactly the eligible
      documents not yet taken, and the ids taken are eligible, distinct,
      oldest first, and none younger than a document still left. */
  ghost predicate Taking(pdfs: map<string, Pdf>, statuses: set<string>, ids: seq<string>, left: set<string>) {
    && left <= pdfs.Keys
    && (forall id :: id in left <==> Eligible(pdfs, statuses, id) && id !in ids)
    && (forall i :: 0 <= i < |ids| ==> Eligible(pdfs, statuses, ids[i]))
    && (forall i, j :: 0 <= i < j < |ids| ==> ids[i] != ids[j])
    && (forall i, j :: 0 <= i < j < |ids| && ids[i] in pdfs && ids[j] in pdfs ==>
          pdfs[ids[i]].createdAt <= pdfs[ids[j]].createdAt)
    && (forall i, id :: 0 <= i < |ids| && id in left ==> pdfs[ids[i]].createdAt <= pdfs[id].createdAt)
  }

  /** Taking the oldest document still left keeps the query's order. */
  lemma TakeOldest(pdfs: map<string, Pdf>, statuses: set<string>, ids: seq<string>, left: set<string>, m: string)
    requires Taking(pdfs, statuses, ids, left)
    requires m in left && forall o :: o in left ==> pdfs[m].createdAt <= pdfs[o].createdAt
    ensures Taking(pdfs, statuses, ids + [m], left - {m})
  {
    var ids', left' := ids + [m], left - {m};
    forall i, j | 0 <= i < j < |ids'|
      ensures ids'[i] != ids'[j]
    {
      if j == |ids| {
        assert ids'[i] == ids[i] && ids[i] !in left;
      }
    }
  }

  /** Once the bound is reached or nothing is left, the ids taken are the
      query's answer. */
  lemma TakingDone(pdfs: map<string, Pdf>, statuses: set<string>, limit: Option<nat>, ids: seq<string>, left: set<string>)
    requires Taking(pdfs, statuses, ids, left)
    requires limit.Some? ==> |ids| <= limit.value
    requires !((limit.None? || |ids| < limit.value) && left != {})
    ensures OldestFirst(pdfs, statuses, limit, ids)
  {
  }

  /** A non-empty set of documents has an oldest one. */
  lemma {:induction false} OldestExists(pdfs: map<string, Pdf>, left: set<string>)
    requires left != {} && left <= pdfs.Keys
    ensures exists m :: m in left && forall o :: o in left ==> pdfs[m].createdAt <= pdfs[o].createdAt
    decreases |left|
  {
    var x :| x in left;
    var rest := left - {x};
    if rest != {} {
      OldestExists(pdfs, rest);
      var m :| m in rest && forall o :: o in rest ==> pdfs[m].createdAt <= pdfs[o].createdAt;
      if pdfs[x].createdAt < pdfs[m].createdAt {
        assert forall o :: o in left ==> pdfs[x].createdAt <= pdfs[o].createdAt;
      } else {
        assert forall o :: o in left ==> pdfs[m].createdAt <= pdfs[o].createdAt;
      }
    } else {
      assert left == {x};
    }
  }

  class PdfStore {
    var pdfs: map<string, Pdf>
    var chunks: seq<Row>

    /** The unique index of the chunk collection holds. */
    ghost predicate Valid()
      reads this
    {
      KeysDistinct(chunks)
    }

    constructor(pdfs: map<string, Pdf>)
      ensures Valid() && this.pdfs == pdfs && chunks == []
    {
      this.pdfs := pdfs;
      chunks := [];
    }

    /** `PdfTextChunk.deleteMany({ pdfId })`. */
    method DeleteChunks(pdfId: string)
      requires Valid()
      modifies this
      ensures Valid()
      ensures chunks == WithoutPdf(old(chunks), pdfId) && pdfs == old(pdfs)
    {
      FilterKeepsKeysDistinct((x: Row) => x.pdfId != pdfId, chunks);
      chunks := WithoutPdf(chunks, pdfId);
    }

    /** `PdfTextChunk.insertMany(rows, { ordered: false })`, one row at a
        time; `ok` is false when some row hit the unique index. */
    method InsertChunks(rows: seq<Row>) returns (ok: bool)
      requires Valid()
      modifies this
      ensures Valid()
      ensures (chunks, ok) == InsertUnordered(old(chunks), rows) && pdfs == old(pdfs)
    {
      ok := true;
      for i := 0 to |rows|
        invariant (chunks, ok) == InsertUnordered(old(chunks), rows[..i])
        invariant pdfs == old(pdfs)
      {
        assert rows[..i + 1][..i] == rows[..i];
        if HasKey(chunks, Key(rows[i])) {
          ok := false;
        } else {
          chunks := chunks + [rows[i]];
        }
      }
      assert rows[..|rows|] == rows;
      InsertKeepsKeysDistinct(old(chunks), rows);
    }

    /** `PDF.updateOne({ _id: id }, ...)` with the document's new state. */
    method Put(id: string, pdf: Pdf)
      modifies this
      ensures pdfs == old(pdfs)[id := pdf] && chunks == old(chunks)
    {
      pdfs := pdfs[id := pdf];
    }

    /** The batch query of both workers: eligible documents, oldest first,
        at most `limit` when there is a bound. Documents created at the same
        instant may come in either order. */
    method SelectOldest(statuses: set<string>, limit: Option<nat>) returns (ids: seq<string>)
      ensures OldestFirst(pdfs, statuses, limit, ids)
    {
      var left := set id | id in pdfs && pdfs[id].status in statuses;
      ids := [];
      while (limit.None? || |ids| < limit.value) && left != {}
        invariant Taking(pdfs, statuses, ids, left)
        invariant limit.Some? ==> |ids| <= limit.value
        decreases |left|
      {
        OldestExists(pdfs, left);
        var m :| m in left && forall o :: o in left ==> pdfs[m].createdAt <= pdfs[o].createdAt;
        TakeOldest(pdfs, statuses, ids, left, m);
        ids := ids + [m];
        left := left - {m};
      }
      TakingDone(pdfs, statuses, limit, ids, left);
    }
  }
}
