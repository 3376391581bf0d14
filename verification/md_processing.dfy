/** The HTML side of the PDF-to-Markdown stage: the node-walking paragraph
    reader, the class-name heading detector, the block filter of
    `cleanupHtml`, and the names of the temporary HTML files. */
module MdProcessing {
  import opened Wrappers
  import opened Text
  import opened HtmlText
  import opened HtmlBlocks
  import opened Seqs

  // Reading a paragraph node by node.

  /** The space a blank node adds: one, unless the text is empty or already
      ends in a space. */
  function BlankSeam(out: string): (sep: string)
    ensures sep == [] || sep == " "
    ensures sep == " " <==> out != [] && out[|out| - 1] != ' '
  {
    if out != [] && out[|out| - 1] != ' ' then " " else []
  }

  /** The space put in front of a non-blank node: one when the text does not
      end in a space and the node began with whitespace or both sides of the
      seam are `[A-Za-z0-9]`. */
  function NodeSeam(out: string, raw: string): (sep: string)
    requires !AllWs(raw)
    ensures sep == [] || sep == " "
    ensures TrimStart(raw) != []
    ensures sep == " " <==> out != [] && out[|out| - 1] != ' '
                            && (IsWs(raw[0]) || (IsAlnum(out[|out| - 1]) && IsAlnum(TrimStart(raw)[0])))
  {
    var chunk := TrimStart(raw);
    var needsSpace := IsWs(raw[0]) || (out != [] && IsAlnum(out[|out| - 1]) && IsAlnum(chunk[0]));
    if out != [] && out[|out| - 1] != ' ' && needsSpace then " " else []
  }

  /** What one child node does to the text read so far: an empty node adds
      nothing, a blank one at most a space, any other node its text without
      the leading whitespace, after the seam. */
  function NodeStep(out: string, raw: string): string {
    if raw == [] then out
    else if AllWs(raw) then out + BlankSeam(out)
    else out + NodeSeam(out, raw) + TrimStart(raw)
  }

  /** The text read from the first nodes of a paragraph. */
  function NodeFold(runs: seq<string>): string {
    if runs == [] then [] else NodeStep(NodeFold(runs[..|runs| - 1]), runs[|runs| - 1])
  }

  /** A node that starts with a letter or digit, read after text ending in
      one, is set off by exactly one space. */
  lemma NodeFoldSpacesAlnum(runs: seq<string>, x: string)
    requires NodeFold(runs) != [] && IsAlnum(NodeFold(runs)[|NodeFold(runs)| - 1])
    requires x != [] && IsAlnum(x[0])
    ensures NodeFold(runs + [x]) == NodeFold(runs) + " " + x
  {
    assert (runs + [x])[..|runs|] == runs;
    assert SkipWs(x, 0) == 0;
  }

  /** A node that starts with whitespace, read after text that does not end
      in a space, is set off by exactly one space, whatever it starts with
      after the whitespace. */
  lemma NodeFoldSpacesWs(runs: seq<string>, x: string)
    requires NodeFold(runs) != [] && NodeFold(runs)[|NodeFold(runs)| - 1] != ' '
    requires !AllWs(x) && IsWs(x[0])
    ensures NodeFold(runs + [x]) == NodeFold(runs) + " " + TrimStart(x)
  {
    assert (runs + [x])[..|runs|] == runs;
  }

  /** A node that starts with neither whitespace nor, after a letter or
      digit, another letter or digit is glued on with no space; so is every
      node read after text ending in a space. */
  lemma NodeFoldGlues(runs: seq<string>, x: string)
    requires x != [] && !IsWs(x[0])
    requires var out := NodeFold(runs);
             out == [] || out[|out| - 1] == ' ' || !IsAlnum(out[|out| - 1]) || !IsAlnum(x[0])
    ensures NodeFold(runs + [x]) == NodeFold(runs) + x
  {
    assert (runs + [x])[..|runs|] == runs;
    NodeStepGlues(NodeFold(runs), x);
  }

  lemma NodeStepGlues(out: string, x: string)
    requires x != [] && !IsWs(x[0])
    requires out == [] || out[|out| - 1] == ' ' || !IsAlnum(out[|out| - 1]) || !IsAlnum(x[0])
    ensures NodeStep(out, x) == out + x
  {
    assert !AllWs(x);
    assert TrimStart(x) == x by { TrimStartConcat([], x); assert [] + x == x; }
    var sep := NodeSeam(out, x);
    assert sep == [];
    assert NodeStep(out, x) == out + sep + TrimStart(x);
    assert out + sep == out;
  }

  /** `extractTextFromParagraph`: the joined nodes, or the element's whole
      text when they join to nothing. */
  function NodeText(p: Paragraph): string {
    var out := NodeFold(p.runs);
    if out == [] then p.fullText else out
  }

  /** The reader as the source writes it, one node at a time. */
  method ReadNodes(p: Paragraph) returns (text: string)
    ensures text == NodeText(p)
  {
    var out := "";
    for i := 0 to |p.runs|
      invariant out == NodeFold(p.runs[..i])
    {
      ghost var before := out;
      assert NodeFold(p.runs[..i + 1]) == NodeStep(before, p.runs[i]) by {
        assert p.runs[..i + 1][..i] == p.runs[..i];
      }
      var raw := p.runs[i];
      if raw == [] {
        continue;
      }
      if AllWs(raw) {
        if out != [] && out[|out| - 1] != ' ' {
          out := out + " ";
        }
        assert out == before + BlankSeam(before);
        continue;
      }
      var startsWithSpace := IsWs(raw[0]);
      var chunk := TrimStart(raw);
      if out != [] {
        var prev := out[|out| - 1];
        var next := chunk[0];
        var needsSpace := startsWithSpace || (IsAlnum(prev) && IsAlnum(next));
        if prev != ' ' && needsSpace {
          out := out + " ";
        }
      }
      assert out == before + NodeSeam(before, raw);
      out := out + chunk;
    }
    assert p.runs[..|p.runs|] == p.runs;
    text := if out == [] then p.fullText else out;
  }

  /** One node adds exactly its own non-whitespace characters. */
  lemma NodeStepText(out: string, raw: string)
    ensures RemoveWs(NodeStep(out, raw)) == RemoveWs(out) + RemoveWs(raw)
  {
    if raw == [] {
    } else if AllWs(raw) {
      RemoveWsAllWs(raw);
      JoinText(out, BlankSeam(out), []);
      assert out + BlankSeam(out) + [] == out + BlankSeam(out);
    } else {
      TrimStartText(raw);
      JoinText(out, NodeSeam(out, raw), TrimStart(raw));
    }
  }

  /** The reader keeps every character of the nodes that is not whitespace,
      in order. */
  lemma {:induction false} NodeFoldText(runs: seq<string>)
    ensures RemoveWs(NodeFold(runs)) == RemoveWs(Flatten(runs))
    decreases |runs|
  {
    if runs != [] {
      var init := runs[..|runs| - 1];
      var raw := runs[|runs| - 1];
      NodeFoldText(init);
      RemoveWsConcat(Flatten(init), raw);
      NodeStepText(NodeFold(init), raw);
    }
  }

  /** The nodes join to nothing exactly when every one of them is blank. */
  lemma {:induction false} NodeFoldEmpty(runs: seq<string>)
    ensures NodeFold(runs) == [] <==> forall i :: 0 <= i < |runs| ==> AllWs(runs[i])
    decreases |runs|
  {
    if runs != [] {
      var init := runs[..|runs| - 1];
      NodeFoldEmpty(init);
      assert forall i :: 0 <= i < |init| ==> init[i] == runs[i];
    }
  }

  /** The joined text never starts with whitespace, and never holds a space
      next to a space unless a node brought one in. */
  lemma {:induction false} NodeFoldShape(runs: seq<string>)
    requires forall i :: 0 <= i < |runs| ==> SingleSpaced(TrimStart(runs[i]))
    ensures var out := NodeFold(runs); (out == [] || !IsWs(out[0])) && SingleSpaced(out)
    decreases |runs|
  {
    if runs != [] {
      var init := runs[..|runs| - 1];
      var raw := runs[|runs| - 1];
      var out := NodeFold(init);
      NodeFoldShape(init);
      if raw == [] {
      } else if AllWs(raw) {
        SingleSpacedJoin(out, BlankSeam(out), []);
        assert out + BlankSeam(out) + [] == out + BlankSeam(out);
      } else {
        SingleSpacedJoin(out, NodeSeam(out, raw), TrimStart(raw));
      }
    }
  }

  // Heading detection from the class attribute.

  /** A character of `\w`. */
  predicate IsWordChar(c: char) { IsAlnum(c) || c == '_' }

  /** `\b` just before position `i`, where a word character stands. */
  predicate WordStart(s: string, i: nat)
    requires i <= |s|
  {
    i == 0 || !IsWordChar(s[i - 1])
  }

  /** `\b` just after position `j - 1`, where a word character stands. */
  predicate WordEnd(s: string, j: nat)
    requires j <= |s|
  {
    j == |s| || !IsWordChar(s[j])
  }

  /** `/\bheading[-_ ]?d\b/` matches at position `i`. */
  predicate HeadingLevelAt(s: string, i: nat, d: char)
    requires i <= |s|
  {
    && WordStart(s, i)
    && i + 7 <= |s| && s[i..i + 7] == "heading"
    && (|| (i + 8 <= |s| && s[i + 7] == d && WordEnd(s, i + 8))
        || (i + 9 <= |s| && (s[i + 7] == '-' || s[i + 7] == '_' || s[i + 7] == ' ')
            && s[i + 8] == d && WordEnd(s, i + 9)))
  }

  /** `/\bheading\b/` matches at position `i`. */
  predicate HeadingWordAt(s: string, i: nat)
    requires i <= |s|
  {
    WordStart(s, i) && i + 7 <= |s| && s[i..i + 7] == "heading" && WordEnd(s, i + 7)
  }

  /** Level `d` is marked: the pattern above matches somewhere, or the text
      contains "heading-d". */
  predicate LevelMarked(s: string, d: char) {
    (exists i :: 0 <= i <= |s| && HeadingLevelAt(s, i, d)) || Contains(s, "heading-" + [d])
  }

  predicate HeadingWord(s: string) {
    exists i :: 0 <= i <= |s| && HeadingWordAt(s, i)
  }

  /** `inferTagFromClassName`: the lowest marked level among 1 to 4, else
      `h2` for the bare word "heading", else a paragraph. */
  function InferTag(className: string): (t: Tag)
    ensures t == H1 <==> LevelMarked(Lower(className), '1')
    ensures t == H2 <==> (&& !LevelMarked(Lower(className), '1')
                          && (|| LevelMarked(Lower(className), '2')
                              || (!LevelMarked(Lower(className), '3') && !LevelMarked(Lower(className), '4')
                                  && HeadingWord(Lower(className)))))
    ensures t == H3 <==> (&& !LevelMarked(Lower(className), '1') && !LevelMarked(Lower(className), '2')
                          && LevelMarked(Lower(className), '3'))
    ensures t == H4 <==> (&& !LevelMarked(Lower(className), '1') && !LevelMarked(Lower(className), '2')
                          && !LevelMarked(Lower(className), '3') && LevelMarked(Lower(className), '4'))
  {
    var c := Lower(className);
    if c == [] then P
    else if LevelMarked(c, '1') then H1
    else if LevelMarked(c, '2') then H2
    else if LevelMarked(c, '3') then H3
    else if LevelMarked(c, '4') then H4
    else if HeadingWord(c) then H2
    else P
  }

  /** Lower-casing is idempotent, so the detector ignores case. */
  lemma InferTagIgnoresCase(className: string)
    ensures InferTag(Lower(className)) == InferTag(className)
  {
    LowerIdempotent(className);
  }

  lemma LowerIdempotent(s: string)
    ensures Lower(Lower(s)) == Lower(s)
  {
  }

  /** Every pattern the detector looks for spells "heading", so a class
      without it is a paragraph. */
  lemma InferTagNeedsHeading(className: string)
    requires !Contains(Lower(className), "heading")
    ensures InferTag(className) == P
  {
    var c := Lower(className);
    forall d: char | LevelMarked(c, d) ensures false {
      if i :| 0 <= i <= |c| && HeadingLevelAt(c, i, d) {
        ContainsAt(c, "heading", i);
      } else {
        var i := ContainsWitness(c, "heading-" + [d]);
        assert c[i..i + 7] == ("heading-" + [d])[..7];
        ContainsAt(c, "heading", i);
      }
    }
    if HeadingWord(c) {
      var i :| 0 <= i <= |c| && HeadingWordAt(c, i);
      ContainsAt(c, "heading", i);
    }
  }

  // The cleaner.

  /** One paragraph as a block: its detected tag and its normalised text. */
  function BlockOf(heuristics: string -> string, p: Paragraph): Block {
    Block(InferTag(p.className), NormalizeHtmlText(NodeCleaner, heuristics, NodeText(p)))
  }

  function Blocks(heuristics: string -> string, ps: seq<Paragraph>): (bs: seq<Block>)
    ensures |bs| == |ps|
  {
    MapSeq(p => BlockOf(heuristics, p), ps)
  }

  /** The block list of `cleanupHtml`: paragraph and heading elements in
      document order, without those whose text is empty or only dots. */
  function CleanBlocks(heuristics: string -> string, ps: seq<Paragraph>): (r: seq<Block>)
    ensures forall b :: b in r ==> b.text != [] && !DotsOnly(b.text)
  {
    KeepBlocks(false, Blocks(heuristics, ps))
  }

  /** A paragraph survives exactly when its text is neither empty nor only
      dots, and then as its own block. */
  lemma CleanBlocksComplete(heuristics: string -> string, ps: seq<Paragraph>, i: nat)
    requires i < |ps|
    ensures var b := BlockOf(heuristics, ps[i]);
      b in CleanBlocks(heuristics, ps) <== b.text != [] && !DotsOnly(b.text)
  {
    assert Blocks(heuristics, ps)[i] == BlockOf(heuristics, ps[i]);
  }

  /** `cleanupHtml` as the source writes it: one pass over the paragraphs,
      pushing each block that survives. */
  method CleanupHtml(heuristics: string -> string, ps: seq<Paragraph>) returns (blocks: seq<Block>)
    ensures blocks == CleanBlocks(heuristics, ps)
  {
    blocks := [];
    for i := 0 to |ps|
      invariant blocks == Filter(b => Kept(false, b), Blocks(heuristics, ps[..i]))
    {
      var b := ReadBlock(heuristics, ps[i]);
      BlocksSnoc(heuristics, ps, i);
      FilterSnoc(b => Kept(false, b), Blocks(heuristics, ps[..i]), b);
      if b.text == [] || DotsOnly(b.text) {
        continue;
      }
      blocks := blocks + [b];
    }
    assert ps[..|ps|] == ps;
  }

  /** The tag and text of one paragraph element. */
  method ReadBlock(heuristics: string -> string, p: Paragraph) returns (b: Block)
    ensures b == BlockOf(heuristics, p)
  {
    var tag := InferTag(p.className);
    var raw := ReadNodes(p);
    var text := NormalizeHtmlText(NodeCleaner, heuristics, raw);
    b := Block(tag, text);
  }

  lemma BlocksSnoc(heuristics: string -> string, ps: seq<Paragraph>, i: nat)
    requires i < |ps|
    ensures Blocks(heuristics, ps[..i + 1]) == Blocks(heuristics, ps[..i]) + [BlockOf(heuristics, ps[i])]
  {
    MapSeqSnoc(p => BlockOf(heuristics, p), ps, i);
  }

  // Temporary files.

  /** `path.join(a, b)` for a relative `b` without `..` or `.` segments. */
  function Join(a: string, b: string): string { a + "/" + b }

  /** `path.dirname(p)`: what stands before the last '/', "/" when that is
      the first character, and "." when there is none. */
  function DirName(p: string): (d: string)
    ensures |d| <= |p| || d == "."
    ensures (forall i :: 0 <= i < |p| ==> p[i] != '/') ==> d == "."
    ensures p != [] && p[0] == '/' && (forall i :: 0 < i < |p| ==> p[i] != '/') ==> d == "/"
    ensures forall k :: 0 < k < |p| && p[k] == '/' && (forall i :: k < i < |p| ==> p[i] != '/') ==> d == p[..k]
  {
    var k := LastIndexOf(p, '/');
    if k < 0 then "." else if k == 0 then "/" else p[..k]
  }

  /** The directory of a file joined onto a directory is that directory. */
  lemma DirNameJoin(dir: string, name: string)
    requires dir != [] && forall i :: 0 <= i < |name| ==> name[i] != '/'
    ensures DirName(Join(dir, name)) == dir
  {
    var p := Join(dir, name);
    assert p[|dir|] == '/';
    assert forall i :: |dir| < i < |p| ==> p[i] == name[i - |dir| - 1];
    assert p[..|dir|] == dir;
  }

  /** `path.join(process.cwd(), ".temp")`. */
  function TempDir(cwd: string): string { Join(cwd, ".temp") }

  /** The base name of the temporary files: the job id when one is given,
      else the clock reading `now`. */
  function BaseName(jobId: Option<string>, now: string): string {
    if jobId.Some? && jobId.value != [] then jobId.value else now
  }

  /** The two files `convertPdfToHtml` writes: the raw HTML, and the cleaned
      copy `writeCleanHtmlFile` puts in the raw file's directory. */
  function ConvertPaths(cwd: string, jobId: Option<string>, now: string): (string, string) {
    var base := BaseName(jobId, now);
    var tempFilePath := Join(TempDir(cwd), base + ".html");
    (tempFilePath, Join(DirName(tempFilePath), "clean-" + base + ".html"))
  }

  /** The two files `cleanupTempHtmlFiles` removes. */
  function CleanupPaths(cwd: string, pdfId: string): (string, string) {
    (Join(TempDir(cwd), pdfId + ".html"), Join(TempDir(cwd), "clean-" + pdfId + ".html"))
  }

  /** With the pdf id as job id, the files the conversion writes are the
      files the cleanup removes, as long as the id holds no path separator. */
  lemma ConvertPathsCleanedUp(cwd: string, pdfId: string, now: string)
    requires pdfId != [] && '/' !in pdfId && cwd != []
    ensures ConvertPaths(cwd, Some(pdfId), now) == CleanupPaths(cwd, pdfId)
  {
    var dir := TempDir(cwd);
    var f := pdfId + ".html";
    var p := Join(dir, f);
    assert p[|dir|] == '/';
    assert forall i :: |dir| < i < |p| ==> p[i] == f[i - |dir| - 1];
    var k := LastIndexOf(p, '/');
    assert k == |dir|;
    assert p[..k] == dir;
  }
}
