/** The word-safe overlapping chunker `chunkText`, which appears with the same
    body in workers/helpers-pdf-processing.ts and workers/extract-pdf-text.ts,
    and the per-page row builder both text-extraction workers run over its
    output.

    The chunker's loop is modelled in two layers: the window bounds
    `[start, end)` it visits (`Windows`), and the chunks it emits from them
    (`ChunksOf`), the trimmed text of every window that is not blank. */
module Chunker {
  import opened Wrappers
  import opened Text

  const MIN_CHUNK_SIZE: nat := 200
  const DEFAULT_CHUNK_SIZE: int := 1600
  const DEFAULT_CHUNK_OVERLAP: int := 200

  /** `Math.max(200, Math.floor(chunkSize))` for an integral `chunkSize`. */
  function EffectiveSize(chunkSize: int): (n: nat)
    ensures n >= MIN_CHUNK_SIZE && n >= chunkSize
    ensures chunkSize >= MIN_CHUNK_SIZE ==> n == chunkSize
    ensures chunkSize < MIN_CHUNK_SIZE ==> n == MIN_CHUNK_SIZE
  {
    if chunkSize < MIN_CHUNK_SIZE then MIN_CHUNK_SIZE else chunkSize
  }

  /** `Math.max(0, Math.floor(chunkOverlap))` for an integral `chunkOverlap`. */
  function EffectiveOverlap(chunkOverlap: int): (n: nat)
    ensures n >= chunkOverlap
    ensures chunkOverlap >= 0 ==> n == chunkOverlap
    ensures chunkOverlap < 0 ==> n == 0
  {
    if chunkOverlap < 0 then 0 else chunkOverlap
  }

  /** `Math.floor(chunkSize * 0.6)`: how far into the window the search for a
      space to snap to begins. */
  function SnapReach(size: nat): (r: nat)
    ensures size >= 2 ==> 1 <= r < size
    ensures r <= size
  {
    (6 * size) / 10
  }

  datatype ChunkError = InvalidChunkParams(chunkOverlap: nat, chunkSize: nat)

  /** The zone `(start+SnapReach(size), start+size)` holds a space. */
  predicate HasSnapPoint(clean: string, size: nat, start: nat)
    requires start + size <= |clean|
  {
    exists i :: start + SnapReach(size) < i < start + size && clean[i] == ' '
  }

  /** `clean.slice(lo, hi).lastIndexOf(" ") > 0`, in the text's own indexes:
      the last space strictly after `lo` and before `hi`, or -1 when there is
      none (a space at `lo` itself is index 0 of the slice, which the source
      does not snap to). */
  function LastSpaceAfter(clean: string, lo: nat, hi: nat): (r: int)
    requires lo <= hi <= |clean|
    ensures r == -1 || (lo < r < hi && clean[r] == ' ')
    ensures forall i :: lo < i < hi && r < i ==> clean[i] != ' '
    decreases hi
  {
    if hi <= lo + 1 then -1
    else if clean[hi - 1] == ' ' then hi - 1
    else LastSpaceAfter(clean, lo, hi - 1)
  }

  /** Where the window that begins at `start` ends: `min(start+size, len)`,
      moved back to the last space of the snap zone when the window stops
      short of the text end and such a space exists. A window that stops
      short of the text end always reaches past the snap reach. */
  function WindowEnd(clean: string, size: nat, start: nat): (end: nat)
    requires start < |clean| && size >= 1
    ensures start < end <= |clean| && end <= start + size
    ensures end < |clean| <==> start + size < |clean|
    ensures end < |clean| ==> start + SnapReach(size) < end
  {
    var end0 := if start + size < |clean| then start + size else |clean|;
    if end0 < |clean| then
      var windowStart := if start + SnapReach(size) < end0 then start + SnapReach(size) else end0;
      var lastSpace := LastSpaceAfter(clean, windowStart, end0);
      if lastSpace >= 0 then lastSpace else end0
    else end0
  }

  /** The window end is the last space of the snap zone when it has one, and
      `min(start+size, len)` otherwise. */
  lemma WindowEndSnaps(clean: string, size: nat, start: nat)
    requires start < |clean| && size >= 1
    ensures var end := WindowEnd(clean, size, start);
      && (start + size < |clean| && HasSnapPoint(clean, size, start) ==>
            start + SnapReach(size) < end && clean[end] == ' '
            && forall i :: end < i < start + size ==> clean[i] != ' ')
      && (!(start + size < |clean| && HasSnapPoint(clean, size, start)) ==>
            end == if start + size < |clean| then start + size else |clean|)
  {
  }

  /** Next window start, corrected so that it always moves forward:
      `end - overlap` when that is past `start`, else `start + 1`. */
  function NextStart(start: nat, end: nat, overlap: nat): (next: nat)
    requires start < end
    ensures start < next <= end
    ensures end - overlap > start ==> next == end - overlap
    ensures end - overlap <= start ==> next == start + 1
  {
    if end - overlap > start then end - overlap else start + 1
  }

  /** The window bounds `[start, end)` the corrected loop visits from `start`:
      each lies inside the text, is at most `size` long and, unless it is the
      last, reaches past the snap reach; the last one ends the text. */
  function Windows(clean: string, size: nat, overlap: nat, start: nat): (ws: seq<(nat, nat)>)
    requires start < |clean| && size >= 1
    ensures ws != [] && ws[0].0 == start && ws[|ws| - 1].1 == |clean|
    ensures forall k :: 0 <= k < |ws| ==>
      start <= ws[k].0 < ws[k].1 <= |clean| && ws[k].1 <= ws[k].0 + size
      && (ws[k].1 < |clean| ==> ws[k].0 + SnapReach(size) < ws[k].1)
    decreases |clean| - start
  {
    var end := WindowEnd(clean, size, start);
    if end >= |clean| then [(start, end)]
    else [(start, end)] + Windows(clean, size, overlap, NextStart(start, end, overlap))
  }

  /** Consecutive windows move forward without leaving a gap, and the next
      window begins `overlap` characters before the previous end whenever
      that is past the previous start. Only the last window ends the text. */
  lemma {:induction false} WindowsChain(clean: string, size: nat, overlap: nat, start: nat, k: nat)
    requires start < |clean| && size >= 1
    requires k + 1 < |Windows(clean, size, overlap, start)|
    ensures var ws := Windows(clean, size, overlap, start);
      && ws[k].0 < ws[k + 1].0 <= ws[k].1 < |clean|
      && (ws[k].1 - overlap > ws[k].0 ==> ws[k + 1].0 == ws[k].1 - overlap)
      && (ws[k].1 - overlap <= ws[k].0 ==> ws[k + 1].0 == ws[k].0 + 1)
    decreases |clean| - start
  {
    var end := WindowEnd(clean, size, start);
    var next := NextStart(start, end, overlap);
    var ws := Windows(clean, size, overlap, start);
    assert end < |clean|;
    var rest := Windows(clean, size, overlap, next);
    assert ws == [(start, end)] + rest;
    if k > 0 {
      WindowsChain(clean, size, overlap, next, k - 1);
      assert ws[k] == rest[k - 1] && ws[k + 1] == rest[k];
    }
  }

  /** The window bounds respect the text. */
  predicate InText(clean: string, ws: seq<(nat, nat)>) {
    forall k :: 0 <= k < |ws| ==> ws[k].0 <= ws[k].1 <= |clean|
  }

  /** The trimmed text of every window. */
  function Pieces(clean: string, ws: seq<(nat, nat)>): (ps: seq<string>)
    requires InText(clean, ws)
    ensures |ps| == |ws|
  {
    seq(|ws|, k requires 0 <= k < |ws| => Trim(clean[ws[k].0..ws[k].1]))
  }

  /** The strings of `xs` that are not empty, in order (the loop pushes a
      chunk only when it is non-empty). */
  function NonEmpty(xs: seq<string>): (r: seq<string>)
    ensures |r| <= |xs|
    ensures forall k :: 0 <= k < |r| ==> r[k] != []
  {
    if xs == [] then []
    else NonEmpty(xs[..|xs| - 1]) + (if xs[|xs| - 1] == [] then [] else [xs[|xs| - 1]])
  }

  /** The chunks emitted for a run of windows: the trimmed windows that are
      not blank. */
  function ChunksOf(clean: string, ws: seq<(nat, nat)>): seq<string>
    requires InText(clean, ws)
  {
    NonEmpty(Pieces(clean, ws))
  }

  /** `chunkText(text, {chunkSize, chunkOverlap})` with the corrected start
      step: blank text gives no chunks whatever the parameters; otherwise the
      parameters are clamped and an overlap that is not below the size is
      an error. */
  function ChunkTextSpec(text: string, chunkSize: int, chunkOverlap: int): (r: Result<seq<string>, ChunkError>)
    ensures AllWs(text) ==> r == Ok([])
    ensures r.Err? <==> !AllWs(text) && EffectiveOverlap(chunkOverlap) >= EffectiveSize(chunkSize)
    ensures r.Err? ==> r.error == InvalidChunkParams(EffectiveOverlap(chunkOverlap), EffectiveSize(chunkSize))
  {
    NormalizeWhitespaceEmpty(text);
    var clean := NormalizeWhitespace(text);
    if clean == [] then Ok([])
    else
      var size := EffectiveSize(chunkSize);
      var overlap := EffectiveOverlap(chunkOverlap);
      if overlap >= size then Err(InvalidChunkParams(overlap, size))
      else Ok(ChunksOf(clean, Windows(clean, size, overlap, 0)))
  }

  /** The windows of the loop as written, whose next start is
      `Math.max(0, end - overlap)`. Runs at most `fuel` windows; `None` when
      the loop has not stopped by then. */
  function WindowsAsWritten(clean: string, size: nat, overlap: nat, start: nat, fuel: nat): (r: Option<seq<(nat, nat)>>)
    requires start < |clean| && size >= 1
    ensures r.Some? ==> InText(clean, r.value)
    decreases fuel
  {
    if fuel == 0 then None
    else
      var end := WindowEnd(clean, size, start);
      if end >= |clean| then Some([(start, end)])
      else
        var next := if end - overlap < 0 then 0 else end - overlap;
        match WindowsAsWritten(clean, size, overlap, next, fuel - 1)
        case None => None
        case Some(rest) => Some([(start, end)] + rest)
  }

  /** `chunkText` exactly as written, run for at most `fuel` windows. */
  function ChunkTextAsWritten(text: string, chunkSize: int, chunkOverlap: int, fuel: nat): Option<Result<seq<string>, ChunkError>> {
    var clean := NormalizeWhitespace(text);
    if clean == [] then Some(Ok([]))
    else
      var size := EffectiveSize(chunkSize);
      var overlap := EffectiveOverlap(chunkOverlap);
      if overlap >= size then Some(Err(InvalidChunkParams(overlap, size)))
      else
        match WindowsAsWritten(clean, size, overlap, 0, fuel)
        case None => None
        case Some(ws) => Some(Ok(ChunksOf(clean, ws)))
  }

  /** A text on which the loop as written never stops for size 200 and
      overlap 150: 121 letters, a space, 178 letters. */
  function StallText(): (s: string)
    ensures |s| == 300
    ensures forall i :: 0 <= i < 300 ==> (s[i] == ' ' <==> i == 121)
  {
    seq(300, i requires 0 <= i < 300 => if i == 121 then ' ' else 'a')
  }

  /** With size 200 and overlap 150 (a pair the source accepts, 150 < 200)
      the first window snaps back to the space at 121, and
      `max(0, 121 - 150)` puts the next window at 0 again: the loop as
      written never stops, however much fuel it is given. */
  lemma AsWrittenNeverStops(fuel: nat)
    ensures ChunkTextAsWritten(StallText(), 200, 150, fuel) == None
  {
    var clean := StallText();
    assert Normalized(clean) by {
      forall i | 0 <= i < |clean| && IsWs(clean[i]) ensures clean[i] == ' ' {
        assert clean[i] == 'a' || clean[i] == ' ';
      }
      forall i, j | 0 <= i < |clean| && j == i + 1 && j < |clean|
        ensures !(clean[i] == ' ' && clean[j] == ' ')
      {
        assert i != 121 ==> clean[i] != ' ';
      }
    }
    NormalizeWhitespaceFixesNormalized(clean);
    assert HasSnapPoint(clean, 200, 0) by { assert clean[121] == ' '; }
    WindowEndSnaps(clean, 200, 0);
    var end := WindowEnd(clean, 200, 0);
    assert end == 121 by { assert clean[end] == ' '; }
    StallsFromZero(clean, fuel);
  }

  lemma {:induction false} StallsFromZero(clean: string, fuel: nat)
    requires |clean| == 300 && WindowEnd(clean, 200, 0) == 121
    ensures WindowsAsWritten(clean, 200, 150, 0, fuel) == None
    decreases fuel
  {
    if fuel > 0 {
      StallsFromZero(clean, fuel - 1);
    }
  }

  /** When the overlap does not exceed the snap reach (as with the defaults
      1600 and 200) the loop as written moves forward on every window, stops
      within `|clean| - start` windows, and visits the corrected loop's windows. */
  lemma {:induction false} AsWrittenAgreesLoop(clean: string, size: nat, overlap: nat, start: nat, fuel: nat)
    requires start < |clean| && size >= 1 && overlap <= SnapReach(size)
    requires fuel >= |clean| - start
    ensures WindowsAsWritten(clean, size, overlap, start, fuel) == Some(Windows(clean, size, overlap, start))
    decreases |clean| - start
  {
    var end := WindowEnd(clean, size, start);
    if end < |clean| {
      var next := end - overlap;
      assert NextStart(start, end, overlap) == next;
      AsWrittenAgreesLoop(clean, size, overlap, next, fuel - 1);
    }
  }

  /** Within the same bound the source's `chunkText` and the corrected one
      return the same result. */
  lemma AsWrittenAgrees(text: string, chunkSize: int, chunkOverlap: int, fuel: nat)
    requires EffectiveOverlap(chunkOverlap) <= SnapReach(EffectiveSize(chunkSize))
    requires fuel >= |NormalizeWhitespace(text)|
    ensures ChunkTextAsWritten(text, chunkSize, chunkOverlap, fuel) == Some(ChunkTextSpec(text, chunkSize, chunkOverlap))
  {
    var clean := NormalizeWhitespace(text);
    var size := EffectiveSize(chunkSize);
    var overlap := EffectiveOverlap(chunkOverlap);
    if clean != [] {
      AsWrittenAgreesLoop(clean, size, overlap, 0, fuel);
    }
  }

  /** Window bounds as the corrected loop produces them: each is a non-empty
      range of the text at most `size` long that, unless it ends the text,
      reaches past the snap reach. */
  predicate Fits(clean: string, size: nat, ws: seq<(nat, nat)>) {
    forall k :: 0 <= k < |ws| ==>
      ws[k].0 < ws[k].1 <= |clean| && ws[k].1 <= ws[k].0 + size
      && (ws[k].1 < |clean| ==> ws[k].0 + SnapReach(size) < ws[k].1)
  }

  /** In a normalised text no window is blank: one of two or more characters
      holds a non-space, and the last one ends on a non-space. */
  lemma WindowNotBlank(clean: string, size: nat, a: nat, b: nat)
    requires Normalized(clean) && size >= 2
    requires a < b <= |clean| && (b < |clean| ==> a + SnapReach(size) < b)
    ensures Trim(clean[a..b]) != []
  {
    var w := clean[a..b];
    if b == |clean| {
      assert w[|w| - 1] == clean[|clean| - 1];
    } else if clean[a] == ' ' {
      assert w[1] == clean[a + 1];
    } else {
      assert w[0] == clean[a];
    }
  }

  /** No window of `ws` is blank. */
  predicate NoneBlank(clean: string, ws: seq<(nat, nat)>)
    requires InText(clean, ws)
  {
    forall k :: 0 <= k < |ws| ==> Pieces(clean, ws)[k] != []
  }

  /** Keeping the non-empty strings of a sequence that has no empty one
      keeps them all. */
  lemma {:induction false} NonEmptyKeepsAll(xs: seq<string>)
    requires forall k :: 0 <= k < |xs| ==> xs[k] != []
    ensures NonEmpty(xs) == xs
  {
    if xs != [] {
      var init := xs[..|xs| - 1];
      NonEmptyKeepsAll(init);
      assert xs == init + [xs[|xs| - 1]];
    }
  }

  lemma PieceAt(clean: string, ws: seq<(nat, nat)>, i: nat, chunk: string)
    requires InText(clean, ws) && i < |ws| && chunk == Trim(clean[ws[i].0..ws[i].1])
    ensures Pieces(clean, ws)[i] == chunk
  {
  }

  /** Taking one more string keeps it when it is not empty. */
  lemma NonEmptySnoc(xs: seq<string>, i: nat)
    requires i < |xs|
    ensures NonEmpty(xs[..i + 1]) == NonEmpty(xs[..i]) + (if xs[i] == [] then [] else [xs[i]])
  {
    assert xs[..i + 1][..i] == xs[..i];
  }

  /** When no window is blank, the chunks are the trimmed windows, one per
      window. */
  lemma ChunksAreTrimmedWindows(clean: string, ws: seq<(nat, nat)>)
    requires InText(clean, ws) && NoneBlank(clean, ws)
    ensures ChunksOf(clean, ws) == Pieces(clean, ws)
  {
    NonEmptyKeepsAll(Pieces(clean, ws));
  }

  /** Trimming a slice of the text yields a slice of the text. */
  lemma TrimmedSliceShape(clean: string, a: nat, b: nat) returns (a': nat, b': nat)
    requires a <= b <= |clean|
    ensures a <= a' <= b' <= b && Trim(clean[a..b]) == clean[a'..b']
  {
    var x, y := TrimSlice(clean[a..b]);
    a', b' := a + x, a + y;
    SliceOfSlice(clean, a, b, x, y);
  }

  lemma SliceOfSlice<T>(s: seq<T>, a: nat, b: nat, x: nat, y: nat)
    requires a <= b <= |s| && x <= y <= b - a
    ensures s[a..b][x..y] == s[a + x..a + y]
  {
    forall j | 0 <= j < y - x ensures s[a..b][x..y][j] == s[a + x..a + y][j] {
      assert s[a..b][x..y][j] == s[a..b][x + j] == s[a + x + j];
    }
  }

  /** A chunk of `clean`: non-empty, no whitespace at either end, no longer
      than `size` and a piece of the text. */
  predicate PieceOf(c: string, clean: string, size: nat) {
    c != [] && |c| <= size && !IsWs(c[0]) && !IsWs(c[|c| - 1]) && Contains(clean, c)
  }

  /** Every chunk is a piece of the normalised text; the first chunk starts
      the text and the last one ends it. */
  predicate ChunksWellFormed(chunks: seq<string>, clean: string, size: nat) {
    && (forall k :: 0 <= k < |chunks| ==> PieceOf(chunks[k], clean, size))
    && (clean != [] ==>
          (chunks != [] && StartsWith(clean, chunks[0]) && EndsWith(clean, chunks[|chunks| - 1])))
  }

  /** The trimmed text of a window of a normalised text is a piece of it. */
  lemma ChunkPiece(clean: string, size: nat, a: nat, b: nat)
    requires Normalized(clean) && size >= 2
    requires a < b <= |clean| && b <= a + size && (b < |clean| ==> a + SnapReach(size) < b)
    ensures PieceOf(Trim(clean[a..b]), clean, size)
  {
    WindowNotBlank(clean, size, a, b);
    var a', b' := TrimmedSliceShape(clean, a, b);
    ContainsAt(clean, Trim(clean[a..b]), a');
  }

  /** The text has no whitespace at either end, so trimming a window that
      starts it keeps its start ... */
  lemma FirstChunkStarts(clean: string, b: nat)
    requires Normalized(clean) && 0 < b <= |clean|
    ensures StartsWith(clean, Trim(clean[0..b]))
  {
    var w := clean[0..b];
    assert w[0] == clean[0];
    TrimKeepsStart(w);
    assert clean[..|Trim(w)|] == w[..|Trim(w)|];
  }

  /** ... and trimming a window that ends it keeps its end. */
  lemma LastChunkEnds(clean: string, a: nat)
    requires Normalized(clean) && a < |clean|
    ensures EndsWith(clean, Trim(clean[a..|clean|]))
  {
    var w := clean[a..|clean|];
    assert w[|w| - 1] == clean[|clean| - 1];
    TrimKeepsEnd(w);
    assert clean[|clean| - |Trim(w)|..] == w[|w| - |Trim(w)|..];
  }

  /** The chunks of windows that fit a normalised text, the first starting
      it and the last ending it, are well formed. */
  lemma ChunksOfWellFormed(clean: string, size: nat, ws: seq<(nat, nat)>)
    requires Normalized(clean) && clean != [] && size >= 2 && Fits(clean, size, ws)
    requires ws != [] && ws[0].0 == 0 && ws[|ws| - 1].1 == |clean|
    ensures ChunksWellFormed(ChunksOf(clean, ws), clean, size)
  {
    var cs := Pieces(clean, ws);
    forall k | 0 <= k < |ws| ensures PieceOf(cs[k], clean, size) {
      ChunkPiece(clean, size, ws[k].0, ws[k].1);
    }
    ChunksAreTrimmedWindows(clean, ws);
    FirstChunkStarts(clean, ws[0].1);
    LastChunkEnds(clean, ws[|ws| - 1].0);
  }

  /** The corrected chunker's output on a normalised text is well formed. */
  lemma ChunkLoopWellFormed(clean: string, size: nat, overlap: nat)
    requires Normalized(clean) && clean != [] && size >= 2
    ensures ChunksWellFormed(ChunksOf(clean, Windows(clean, size, overlap, 0)), clean, size)
  {
    ChunksOfWellFormed(clean, size, Windows(clean, size, overlap, 0));
  }

  /** The corrected chunker's output is well formed. */
  lemma ChunkTextWellFormed(text: string, chunkSize: int, chunkOverlap: int)
    requires ChunkTextSpec(text, chunkSize, chunkOverlap).Ok?
    ensures ChunksWellFormed(ChunkTextSpec(text, chunkSize, chunkOverlap).value,
                             NormalizeWhitespace(text), EffectiveSize(chunkSize))
  {
    if NormalizeWhitespace(text) != [] {
      NormalizeWhitespaceNormalized(text);
      ChunkLoopWellFormed(NormalizeWhitespace(text), EffectiveSize(chunkSize), EffectiveOverlap(chunkOverlap));
    }
  }

  /** `chunkText` (workers/helpers-pdf-processing.ts:268-300 and
      workers/extract-pdf-text.ts:34-66), with the corrected start step. */
  method ChunkText(text: string, chunkSize: int, chunkOverlap: int) returns (r: Result<seq<string>, ChunkError>)
    ensures r == ChunkTextSpec(text, chunkSize, chunkOverlap)
  {
    var clean := NormalizeWhitespace(text);
    if clean == [] {
      return Ok([]);
    }
    var size := EffectiveSize(chunkSize);
    var overlap := EffectiveOverlap(chunkOverlap);
    if overlap >= size {
      return Err(InvalidChunkParams(overlap, size));
    }
    var chunks := ChunkLoop(clean, size, overlap);
    return Ok(chunks);
  }

  /** The window loop of `chunkText` (workers/helpers-pdf-processing.ts:282-297)
      over the normalised text, with the corrected start step. */
  method ChunkLoop(clean: string, size: nat, overlap: nat) returns (chunks: seq<string>)
    requires clean != [] && size >= 1
    ensures chunks == ChunksOf(clean, Windows(clean, size, overlap, 0))
  {
    ghost var ws := Windows(clean, size, overlap, 0);
    ghost var ps := Pieces(clean, ws);
    ghost var i := 0;
    chunks := [];
    var start: nat := 0;
    while start < |clean|
      invariant i < |ws| && start == ws[i].0 < |clean|
      invariant chunks == NonEmpty(ps[..i])
      decreases |clean| - start
    {
      var end := WindowEnd(clean, size, start);
      WindowsAt(clean, size, overlap, 0, i);
      var chunk := Trim(clean[start..end]);
      PieceAt(clean, ws, i, chunk);
      NonEmptySnoc(ps, i);
      if chunk != [] {
        chunks := chunks + [chunk];
      }
      if end >= |clean| {
        assert ps[..i + 1] == ps;
        break;
      }
      start := NextStart(start, end, overlap);
      i := i + 1;
    }
  }

  /** The `k`-th window ends where `WindowEnd` puts it, it is the last one
      exactly when it ends the text, and the next one starts at `NextStart`. */
  lemma {:induction false} WindowsAt(clean: string, size: nat, overlap: nat, start: nat, k: nat)
    requires start < |clean| && size >= 1
    requires k < |Windows(clean, size, overlap, start)|
    ensures var ws := Windows(clean, size, overlap, start);
      && ws[k].1 == WindowEnd(clean, size, ws[k].0)
      && (k + 1 < |ws| <==> ws[k].1 < |clean|)
      && (k + 1 < |ws| ==> ws[k + 1].0 == NextStart(ws[k].0, ws[k].1, overlap))
    decreases |clean| - start
  {
    var end := WindowEnd(clean, size, start);
    if end < |clean| {
      var ws := Windows(clean, size, overlap, start);
      var next := NextStart(start, end, overlap);
      var rest := Windows(clean, size, overlap, next);
      assert ws == [(start, end)] + rest;
      if k > 0 {
        WindowsAt(clean, size, overlap, next, k - 1);
        assert ws[k] == rest[k - 1];
        if k + 1 < |ws| { assert ws[k + 1] == rest[k]; }
      }
    }
  }
}
