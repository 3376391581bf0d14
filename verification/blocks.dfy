/** What both HTML cleaners rebuild a page from: paragraphs as the DOM
    library hands them over, and the heading or paragraph blocks they keep. */
module HtmlBlocks {
  import opened Text
  import opened HtmlText
  import opened Seqs

  /** The element a block is written back as. */
  datatype Tag = H1 | H2 | H3 | H4 | P

  /** One `<p>` element: its `class` attribute, the texts of the runs the
      cleaner walks (spans or child nodes), and the element's whole text. */
  datatype Paragraph = Paragraph(className: string, runs: seq<string>, fullText: string)

  datatype Block = Block(tag: Tag, text: string)

  /** `replace(/\./g, "")`. */
  function DropDots(s: string): (r: string)
    ensures |r| <= |s|
    ensures forall i :: 0 <= i < |r| ==> r[i] != '.'
  {
    if s == [] then []
    else DropDots(s[..|s| - 1]) + (if s[|s| - 1] == '.' then [] else [s[|s| - 1]])
  }

  /** The replace works character by character: two pieces laid end to end
      lose their dots on their own, and the other characters stay in order. */
  lemma {:induction false} DropDotsConcat(a: string, b: string)
    ensures DropDots(a + b) == DropDots(a) + DropDots(b)
    decreases |b|
  {
    if b == [] {
      assert a + b == a;
    } else {
      var init, c := b[..|b| - 1], b[|b| - 1];
      var ab := a + b;
      var tail: string := if c == '.' then [] else [c];
      assert ab[..|ab| - 1] == a + init && ab[|ab| - 1] == c;
      calc {
        DropDots(ab);
        DropDots(a + init) + tail;
        { DropDotsConcat(a, init); }
        (DropDots(a) + DropDots(init)) + tail;
        { AppendAssoc(DropDots(a), DropDots(init), tail); }
        DropDots(a) + (DropDots(init) + tail);
        DropDots(a) + DropDots(b);
      }
    }
  }

  /** A dot goes, any other character stays. */
  lemma DropDotsOne(c: char)
    ensures DropDots([c]) == if c == '.' then [] else [c]
  {
    assert [c][..0] == [];
  }

  /** `text.replace(/\./g, "").trim() === ""`. */
  predicate DotsOnly(s: string) {
    Trim(DropDots(s)) == []
  }

  /** A text is dots-only exactly when every character is a dot or whitespace. */
  lemma DotsOnlyChars(s: string)
    ensures DotsOnly(s) <==> forall i :: 0 <= i < |s| ==> s[i] == '.' || IsWs(s[i])
  {
    DropDotsAllWs(s);
  }

  lemma {:induction false} DropDotsAllWs(s: string)
    ensures AllWs(DropDots(s)) <==> forall i :: 0 <= i < |s| ==> s[i] == '.' || IsWs(s[i])
    decreases |s|
  {
    if s != [] {
      var init := s[..|s| - 1];
      DropDotsAllWs(init);
      var d := DropDots(init);
      var tail: string := if s[|s| - 1] == '.' then [] else [s[|s| - 1]];
      assert DropDots(s) == d + tail;
      assert AllWs(d + tail) <==> AllWs(d) && AllWs(tail) by {
        if AllWs(d) && AllWs(tail) {
          forall i | 0 <= i < |d + tail| ensures IsWs((d + tail)[i]) {
            if i >= |d| { assert (d + tail)[i] == tail[i - |d|]; }
          }
        }
        if AllWs(d + tail) {
          forall i | 0 <= i < |d| ensures IsWs(d[i]) { assert (d + tail)[i] == d[i]; }
          forall i | 0 <= i < |tail| ensures IsWs(tail[i]) { assert (d + tail)[|d| + i] == tail[i]; }
        }
      }
      assert AllWs(tail) <==> s[|s| - 1] == '.' || IsWs(s[|s| - 1]) by {
        if tail != [] { assert tail[0] == s[|s| - 1]; }
      }
      var all := forall i :: 0 <= i < |s| ==> s[i] == '.' || IsWs(s[i]);
      var front := forall i :: 0 <= i < |init| ==> init[i] == '.' || IsWs(init[i]);
      assert all <==> front && (s[|s| - 1] == '.' || IsWs(s[|s| - 1])) by {
        forall i | 0 <= i < |init| ensures init[i] == s[i] { }
      }
    }
  }

  /** The runs of a paragraph laid end to end. */
  function Flatten(rs: seq<string>): string {
    if rs == [] then [] else Flatten(rs[..|rs| - 1]) + rs[|rs| - 1]
  }

  /** Text is blank exactly when each of its runs is. */
  lemma {:induction false} FlattenAllWs(rs: seq<string>)
    ensures AllWs(Flatten(rs)) <==> forall i :: 0 <= i < |rs| ==> AllWs(rs[i])
    decreases |rs|
  {
    if rs != [] {
      var init := rs[..|rs| - 1];
      FlattenAllWs(init);
      AllWsConcat(Flatten(init), rs[|rs| - 1]);
      assert forall i :: 0 <= i < |init| ==> init[i] == rs[i];
    }
  }

  lemma AllWsConcat(a: string, b: string)
    ensures AllWs(a + b) <==> AllWs(a) && AllWs(b)
  {
    if AllWs(a + b) {
      forall i | 0 <= i < |a| ensures IsWs(a[i]) { assert (a + b)[i] == a[i]; }
      forall i | 0 <= i < |b| ensures IsWs(b[i]) { assert (a + b)[|a| + i] == b[i]; }
    }
  }

  /** Gluing two single-spaced texts with at most one space in between stays
      single-spaced, as long as no space meets another at the seams. */
  lemma SingleSpacedJoin(a: string, sep: string, c: string)
    requires SingleSpaced(a) && SingleSpaced(c)
    requires sep == [] || sep == " "
    requires c == [] || c[0] != ' '
    requires sep == " " ==> a == [] || a[|a| - 1] != ' '
    ensures SingleSpaced(a + sep + c)
  {
    var u := a + sep + c;
    forall i | 0 <= i < |u| && IsWs(u[i]) ensures u[i] == ' ' {
      if i >= |a| + |sep| { assert u[i] == c[i - |a| - |sep|]; }
      else if i < |a| { assert u[i] == a[i]; }
    }
    forall i, j | 0 <= i < |u| && j == i + 1 && j < |u| ensures !(u[i] == ' ' && u[j] == ' ') {
      if i >= |a| + |sep| {
        assert u[i] == c[i - |a| - |sep|] && u[j] == c[j - |a| - |sep|];
      } else if j < |a| {
        assert u[i] == a[i] && u[j] == a[j];
      } else if i < |a| && j == |a| && sep == [] {
        assert u[j] == c[0];
      } else if j == |a| + |sep| {
        assert u[j] == c[0];
      }
    }
  }

  /** `/oceanofpdf\.com/i.test(text) || /oceanofpd/i.test(text)`. */
  predicate Watermarked(s: string) {
    Contains(Lower(s), "oceanofpdf.com") || Contains(Lower(s), "oceanofpd")
  }

  /** The longer pattern adds nothing: the watermark test is a
      case-insensitive search for "oceanofpd". */
  lemma WatermarkedShort(s: string)
    ensures Watermarked(s) <==> Contains(Lower(s), "oceanofpd")
  {
    if Contains(Lower(s), "oceanofpdf.com") {
      var i := ContainsWitness(Lower(s), "oceanofpdf.com");
      assert Lower(s)[i..i + 9] == "oceanofpdf.com"[..9];
      ContainsAt(Lower(s), "oceanofpd", i);
    }
  }

  /** Whether a cleaner keeps a block: its text is not empty, not only dots,
      and, when the cleaner checks for it, carries no watermark. */
  predicate Kept(checkWatermark: bool, b: Block) {
    b.text != [] && !DotsOnly(b.text) && !(checkWatermark && Watermarked(b.text))
  }

  /** The blocks a cleaner keeps, in document order. */
  function KeepBlocks(checkWatermark: bool, bs: seq<Block>): (r: seq<Block>)
    ensures forall b :: b in r <==> b in bs && Kept(checkWatermark, b)
  {
    FilterExact(b => Kept(checkWatermark, b), bs);
    Filter(b => Kept(checkWatermark, b), bs)
  }

  /** Gluing with whitespace adds no text. */
  lemma JoinText(out: string, sep: string, chunk: string)
    requires AllWs(sep)
    ensures RemoveWs(out + sep + chunk) == RemoveWs(out) + RemoveWs(chunk)
  {
    RemoveWsConcat(out + sep, chunk);
    RemoveWsConcat(out, sep);
    RemoveWsAllWs(sep);
  }

  /** Stripping leading whitespace keeps the text. */
  lemma TrimStartText(s: string)
    ensures RemoveWs(TrimStart(s)) == RemoveWs(s)
  {
    RemoveWsSplit(s, SkipWs(s, 0));
  }


}
