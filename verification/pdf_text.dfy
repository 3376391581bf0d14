/*
 * `normalizePdfText` of workers/helpers/pdf-text.ts: the clean-up applied to
 * the text pdf-parse pulls out of a whole PDF, as the chain of replaces the
 * source applies, one function per replace; then the same chain with the
 * hyphen join moved after the blank removal and made non-consuming, which is
 * what makes the clean-up idempotent.
 */
module PdfText {
  import opened Wrappers
  import opened Text
  import opened Store
  import Seqs

  // Characters.

  /** The `[ \t]` class. */
  predicate Blank(c: char) { c == ' ' || c == '\t' }

  /** The `[\u0000-\u001F\u007F]` class. */
  predicate IsControl(c: char) { c <= '\U{1F}' || c == '\U{7F}' }

  /** Deleted outright: soft hyphen, zero-width space, non-joiner and joiner,
      byte-order mark, replacement character. */
  predicate Removed(c: char) {
    c == '\U{AD}' || ('\U{200B}' <= c <= '\U{200D}') || c == '\U{FEFF}' || c == '\U{FFFD}'
  }

  /** A character the first five replaces change. */
  predicate Mapped(c: char) {
    c == '\U{A0}' || Removed(c) || (IsControl(c) && c != '\n')
  }

  /** What the first five replaces make of one character: NBSP and every
      control character but the newline become a space, the removed ones
      disappear, the rest stay. The replaced sets are disjoint and produce
      only spaces, so the five passes act character by character. */
  function MapChar(c: char): (r: string)
    ensures r == [c] <==> !Mapped(c)
    ensures |r| <= 1 && forall x :: x in r ==> !Mapped(x)
    ensures c == '\U{A0}' || (IsControl(c) && c != '\n') ==> r == " "
    ensures Removed(c) ==> r == []
  {
    if c == '\U{A0}' then " "
    else if Removed(c) then []
    else if IsControl(c) && c != '\n' then " "
    else [c]
  }

  /** No character a replace of the first five would change. */
  predicate CleanChars(s: string) {
    forall i :: 0 <= i < |s| ==> !Mapped(s[i])
  }

  /** The first five replaces. */
  function MapPdfChars(s: string): (r: string)
    ensures |r| <= |s|
    ensures CleanChars(r)
  {
    if s == [] then [] else MapChar(s[0]) + MapPdfChars(s[1..])
  }

  /** The five replaces work character by character: mapping two pieces
      laid end to end gives the two mapped pieces, in the same order. */
  lemma {:induction false} MapPdfCharsConcat(a: string, b: string)
    ensures MapPdfChars(a + b) == MapPdfChars(a) + MapPdfChars(b)
    decreases |a|
  {
    if a == [] {
      assert a + b == b;
    } else {
      var ab := a + b;
      assert ab[0] == a[0] && ab[1..] == a[1..] + b;
      calc {
        MapPdfChars(ab);
        MapChar(a[0]) + MapPdfChars(a[1..] + b);
        { MapPdfCharsConcat(a[1..], b); }
        MapChar(a[0]) + (MapPdfChars(a[1..]) + MapPdfChars(b));
        { Seqs.AppendAssoc(MapChar(a[0]), MapPdfChars(a[1..]), MapPdfChars(b)); }
        (MapChar(a[0]) + MapPdfChars(a[1..])) + MapPdfChars(b);
        MapPdfChars(a) + MapPdfChars(b);
      }
    }
  }

  /** On a single character the map is `MapChar`. */
  lemma MapPdfCharsOne(c: char)
    ensures MapPdfChars([c]) == MapChar(c)
  {
    assert [c][1..] == [];
  }

  /** `.replace(/\r\n/g, "\n").replace(/\r/g, "\n")`. */
  function CrToLf(s: string): (r: string)
    ensures |r| <= |s|
  {
    if s == [] then []
    else if s[0] == '\r' then "\n" + CrToLf(if |s| > 1 && s[1] == '\n' then s[2..] else s[1..])
    else [s[0]] + CrToLf(s[1..])
  }

  /** `.replace(/([A-Za-z])-\n([A-Za-z])/g, "$1$2")`: a global replace
      resumes after each match, so a letter that closes one match cannot
      open the next. */
  function JoinHyphens(s: string): (r: string)
    ensures |r| <= |s|
    ensures forall x :: x in r ==> x in s
  {
    if |s| >= 4 && IsAsciiLetter(s[0]) && s[1] == '-' && s[2] == '\n' && IsAsciiLetter(s[3])
    then [s[0], s[3]] + JoinHyphens(s[4..])
    else if s == [] then []
    else [s[0]] + JoinHyphens(s[1..])
  }

  /** `.replace(/[ \t]+\n/g, "\n")`: blanks right before a newline go. */
  function DropBlanks(s: string): (r: string)
    ensures |r| <= |s|
    ensures forall x :: x in r ==> x in s
    ensures r == [] <==> s == []
    ensures s != [] && !Blank(s[0]) ==> r[0] == s[0]
  {
    if s == [] then []
    else
      var rest := DropBlanks(s[1..]);
      if Blank(s[0]) && rest != [] && rest[0] == '\n' then rest else [s[0]] + rest
  }

  /** `.replace(/\n{3,}/g, "\n\n")`: of each run of newlines the first two
      stay. `run` counts the newlines just before `s`, up to two. */
  function CapNewlines(run: nat, s: string): (r: string)
    requires run <= 2
    ensures |r| <= |s|
    ensures forall x :: x in r ==> x in s
    ensures s != [] && (run < 2 || s[0] != '\n') ==> r != [] && r[0] == s[0]
    decreases |s|
  {
    if s == [] then []
    else if s[0] == '\n' then
      if run == 2 then CapNewlines(2, s[1..]) else "\n" + CapNewlines(run + 1, s[1..])
    else [s[0]] + CapNewlines(0, s[1..])
  }

  /** `.replace(/[ \t]{2,}/g, " ")`: each run of two or more blanks becomes
      one space; a lone blank stays as it is. `inRun` says that the blank
      just before `s` was already written. */
  function CollapseBlanks(inRun: bool, s: string): (r: string)
    ensures |r| <= |s|
    ensures forall x :: x in r ==> x in s || x == ' '
    ensures !inRun && s != [] ==> r != [] && (if Blank(s[0]) then Blank(r[0]) else r[0] == s[0])
    ensures inRun ==> r == [] || !Blank(r[0])
    decreases |s|
  {
    if s == [] then []
    else if Blank(s[0]) then
      if inRun then CollapseBlanks(true, s[1..])
      else if |s| > 1 && Blank(s[1]) then " " + CollapseBlanks(true, s[1..])
      else [s[0]] + CollapseBlanks(true, s[1..])
    else [s[0]] + CollapseBlanks(false, s[1..])
  }

  /** `normalizePdfText`, as written. */
  function NormalizePdfText(s: string): string {
    Trim(CollapseBlanks(false, CapNewlines(0, DropBlanks(JoinHyphens(CrToLf(MapPdfChars(s)))))))
  }

  // The join, corrected.

  /** `.replace(/(?<=[A-Za-z])-\n(?=[A-Za-z])/g, "")`: a "-\n" between two
      letters of the input goes, and the letters themselves are only looked
      at, so one letter can close a join and open the next. `afterLetter`
      says that the character just before `s` is a letter. */
  function JoinBreaks(afterLetter: bool, s: string): (r: string)
    ensures |r| <= |s|
    ensures forall x :: x in r ==> x in s
    ensures s != [] ==> r != [] && (r[0] == s[0] || (afterLetter && |s| >= 3 && s[0] == '-' && r[0] == s[2]))
    ensures !afterLetter && s != [] ==> r[0] == s[0]
    decreases |s|
  {
    if s == [] then []
    else if afterLetter && |s| >= 3 && s[0] == '-' && s[1] == '\n' && IsAsciiLetter(s[2]) then JoinBreaks(false, s[2..])
    else [s[0]] + JoinBreaks(IsAsciiLetter(s[0]), s[1..])
  }

  /** `normalizePdfText` with the blanks before a newline removed before the
      hyphen join, and the join written with look-around. */
  function NormalizePdfTextFixed(s: string): string {
    Trim(CollapseBlanks(false, CapNewlines(0, JoinBreaks(false, DropBlanks(CrToLf(MapPdfChars(s)))))))
  }

  // What the output avoids, position by position.

  /** A blank right before a newline at `i`. */
  predicate BlankNlAt(s: string, i: int) {
    0 <= i && i + 1 < |s| && Blank(s[i]) && s[i + 1] == '\n'
  }

  /** Three newlines from `i`. */
  predicate TripleNlAt(s: string, i: int) {
    0 <= i && i + 2 < |s| && s[i] == '\n' && s[i + 1] == '\n' && s[i + 2] == '\n'
  }

  /** Two blanks from `i`. */
  predicate DoubleBlankAt(s: string, i: int) {
    0 <= i && i + 1 < |s| && Blank(s[i]) && Blank(s[i + 1])
  }

  /** A letter, "-", a newline and a letter from `i`. */
  predicate JoinableAt(s: string, i: int) {
    0 <= i && i + 3 < |s| && IsAsciiLetter(s[i]) && s[i + 1] == '-' && s[i + 2] == '\n' && IsAsciiLetter(s[i + 3])
  }

  ghost predicate NoBlankNl(s: string) { forall i :: !BlankNlAt(s, i) }
  ghost predicate NoTripleNl(s: string) { forall i :: !TripleNlAt(s, i) }
  ghost predicate NoDoubleBlank(s: string) { forall i :: !DoubleBlankAt(s, i) }
  ghost predicate NoJoinable(s: string) { forall i :: !JoinableAt(s, i) }

  /** With or without whitespace around it. */
  predicate Trimmed(s: string) { s == [] || (!IsWs(s[0]) && !IsWs(s[|s| - 1])) }

  /** Putting a character in front adds one position to look at. */
  lemma Cons(c: char, r: string)
    ensures NoBlankNl([c] + r) <==> !BlankNlAt([c] + r, 0) && NoBlankNl(r)
    ensures NoTripleNl([c] + r) <==> !TripleNlAt([c] + r, 0) && NoTripleNl(r)
    ensures NoDoubleBlank([c] + r) <==> !DoubleBlankAt([c] + r, 0) && NoDoubleBlank(r)
    ensures NoJoinable([c] + r) <==> !JoinableAt([c] + r, 0) && NoJoinable(r)
  {
    var s := [c] + r;
    forall i | 0 <= i
      ensures BlankNlAt(s, i + 1) == BlankNlAt(r, i) && TripleNlAt(s, i + 1) == TripleNlAt(r, i)
           && DoubleBlankAt(s, i + 1) == DoubleBlankAt(r, i) && JoinableAt(s, i + 1) == JoinableAt(r, i)
    {
    }
    forall i | 0 < i
      ensures BlankNlAt(s, i) == BlankNlAt(r, i - 1) && TripleNlAt(s, i) == TripleNlAt(r, i - 1)
           && DoubleBlankAt(s, i) == DoubleBlankAt(r, i - 1) && JoinableAt(s, i) == JoinableAt(r, i - 1)
    {
      assert i == (i - 1) + 1;
    }
  }

  /** A piece of a string avoids what the string avoids. */
  lemma Slice(s: string, a: nat, b: nat)
    requires a <= b <= |s|
    ensures NoBlankNl(s) ==> NoBlankNl(s[a..b])
    ensures NoTripleNl(s) ==> NoTripleNl(s[a..b])
    ensures NoDoubleBlank(s) ==> NoDoubleBlank(s[a..b])
    ensures NoJoinable(s) ==> NoJoinable(s[a..b])
    ensures CleanChars(s) ==> CleanChars(s[a..b])
  {
    var t := s[a..b];
    forall i
      ensures BlankNlAt(t, i) ==> BlankNlAt(s, a + i)
      ensures TripleNlAt(t, i) ==> TripleNlAt(s, a + i)
      ensures DoubleBlankAt(t, i) ==> DoubleBlankAt(s, a + i)
      ensures JoinableAt(t, i) ==> JoinableAt(s, a + i)
    {
    }
    forall i | 0 <= i < |t|
      ensures t[i] == s[a + i]
    {
    }
  }

  /** Characters drawn from a clean string, or spaces, make a clean string. */
  lemma CleanFrom(s: string, r: string)
    requires CleanChars(s)
    requires forall x :: x in r ==> x in s || x == ' '
    ensures CleanChars(r)
  {
    forall i | 0 <= i < |r|
      ensures !Mapped(r[i])
    {
      assert r[i] in r;
    }
  }

  // Each pass: what it establishes, what it keeps, and when it changes
  // nothing.

  /** The character map changes nothing on clean text. */
  lemma {:induction false} MapPdfCharsFixes(s: string)
    requires CleanChars(s)
    ensures MapPdfChars(s) == s
  {
    if s != [] {
      MapPdfCharsFixes(s[1..]);
      assert s == [s[0]] + s[1..];
    }
  }

  /** The carriage-return passes change nothing on text without one, and
      clean text has none: `\r` is a control character the map already
      turned into a space, so these passes never fire. */
  lemma {:induction false} CrToLfFixes(s: string)
    requires CleanChars(s)
    ensures CrToLf(s) == s
  {
    if s != [] {
      assert !Mapped(s[0]);
      CrToLfFixes(s[1..]);
      assert s == [s[0]] + s[1..];
    }
  }

  lemma {:induction false} DropBlanksNoBlankNl(s: string)
    ensures NoBlankNl(DropBlanks(s))
  {
    if s != [] {
      DropBlanksNoBlankNl(s[1..]);
      Cons(s[0], DropBlanks(s[1..]));
    }
  }

  lemma {:induction false} DropBlanksFixes(s: string)
    requires NoBlankNl(s)
    ensures DropBlanks(s) == s
  {
    if s != [] {
      assert s == [s[0]] + s[1..];
      Cons(s[0], s[1..]);
      DropBlanksFixes(s[1..]);
    }
  }

  /** The join removes no blank and adds no newline, so it cannot put a
      blank before a newline. */
  lemma {:induction false} JoinBreaksKeepsBlankNl(afterLetter: bool, s: string)
    requires NoBlankNl(s)
    ensures NoBlankNl(JoinBreaks(afterLetter, s))
    decreases |s|
  {
    if s == [] {
    } else if afterLetter && |s| >= 3 && s[0] == '-' && s[1] == '\n' && IsAsciiLetter(s[2]) {
      Slice(s, 2, |s|);
      assert s[2..|s|] == s[2..];
      JoinBreaksKeepsBlankNl(false, s[2..]);
    } else {
      Cons(s[0], s[1..]);
      assert s == [s[0]] + s[1..];
      JoinBreaksKeepsBlankNl(IsAsciiLetter(s[0]), s[1..]);
      Cons(s[0], JoinBreaks(IsAsciiLetter(s[0]), s[1..]));
      assert !BlankNlAt(s, 0);
    }
  }

  /** After the join no letter, "-", newline, letter is left: the join
      looks at the letters without consuming them. */
  lemma {:induction false} JoinBreaksNoJoinable(afterLetter: bool, s: string)
    ensures NoJoinable(JoinBreaks(afterLetter, s))
    decreases |s|
  {
    if s == [] {
    } else if afterLetter && |s| >= 3 && s[0] == '-' && s[1] == '\n' && IsAsciiLetter(s[2]) {
      JoinBreaksNoJoinable(false, s[2..]);
    } else {
      JoinBreaksNoJoinable(IsAsciiLetter(s[0]), s[1..]);
      Cons(s[0], JoinBreaks(IsAsciiLetter(s[0]), s[1..]));
      JoinBreaksHead(s[0], s[1..]);
    }
  }

  /** What the join writes after a letter does not start with "-", newline,
      letter: such a break would have been joined. */
  lemma JoinBreaksHead(c: char, t: string)
    ensures !JoinableAt([c] + JoinBreaks(IsAsciiLetter(c), t), 0)
  {
    var rest := JoinBreaks(IsAsciiLetter(c), t);
    if IsAsciiLetter(c) && t != [] {
      if |t| >= 3 && t[0] == '-' && t[1] == '\n' && IsAsciiLetter(t[2]) {
        assert rest == JoinBreaks(false, t[2..]);
      } else if t[0] == '-' {
        assert rest == ['-'] + JoinBreaks(false, t[1..]);
        if |t| >= 2 && t[1] == '\n' {
          assert JoinBreaks(false, t[1..]) == ['\n'] + JoinBreaks(false, t[2..]);
        }
      }
    }
  }

  /** The join changes nothing on text where it finds nothing to join. */
  lemma {:induction false} JoinBreaksFixes(afterLetter: bool, s: string)
    requires NoJoinable(s)
    requires !(afterLetter && |s| >= 3 && s[0] == '-' && s[1] == '\n' && IsAsciiLetter(s[2]))
    ensures JoinBreaks(afterLetter, s) == s
    decreases |s|
  {
    if s != [] {
      assert s == [s[0]] + s[1..];
      Cons(s[0], s[1..]);
      assert !JoinableAt(s, 0);
      JoinBreaksFixes(IsAsciiLetter(s[0]), s[1..]);
    }
  }

  /** Capping newline runs removes only newlines that follow a newline, so
      it cannot put a blank before a newline. */
  lemma {:induction false} CapNewlinesKeepsBlankNl(run: nat, s: string)
    requires run <= 2 && NoBlankNl(s)
    ensures NoBlankNl(CapNewlines(run, s))
    decreases |s|
  {
    if s != [] {
      Cons(s[0], s[1..]);
      assert s == [s[0]] + s[1..];
      if s[0] == '\n' {
        CapNewlinesKeepsBlankNl(if run == 2 then 2 else run + 1, s[1..]);
        if run < 2 {
          Cons('\n', CapNewlines(run + 1, s[1..]));
        }
      } else {
        CapNewlinesKeepsBlankNl(0, s[1..]);
        Cons(s[0], CapNewlines(0, s[1..]));
        assert !BlankNlAt(s, 0);
      }
    }
  }

  /** Nor can it make a letter, "-", newline, letter: the newline it keeps
      of a run is the first. */
  lemma {:induction false} CapNewlinesKeepsNoJoinable(run: nat, s: string)
    requires run <= 2 && NoJoinable(s)
    ensures NoJoinable(CapNewlines(run, s))
    decreases |s|
  {
    if s != [] {
      Cons(s[0], s[1..]);
      assert s == [s[0]] + s[1..];
      if s[0] == '\n' {
        CapNewlinesKeepsNoJoinable(if run == 2 then 2 else run + 1, s[1..]);
        if run < 2 {
          Cons('\n', CapNewlines(run + 1, s[1..]));
        }
      } else {
        var t := s[1..];
        var rest := CapNewlines(0, t);
        CapNewlinesKeepsNoJoinable(0, t);
        Cons(s[0], rest);
        assert !JoinableAt(s, 0);
        if IsAsciiLetter(s[0]) && t != [] && t[0] == '-' {
          assert rest == ['-'] + CapNewlines(0, t[1..]);
          if |t| >= 2 && t[1] == '\n' {
            assert CapNewlines(0, t[1..]) == ['\n'] + CapNewlines(1, t[2..]);
          }
        }
      }
    }
  }

  /** After the cap no three newlines follow each other; with one newline
      just before, the result does not start with two, and with two just
      before, not with one. */
  lemma {:induction false} CapNewlinesNoTriple(run: nat, s: string)
    requires run <= 2
    ensures var r := CapNewlines(run, s);
            && NoTripleNl(r)
            && (run == 1 ==> !(|r| >= 2 && r[0] == '\n' && r[1] == '\n'))
            && (run == 2 ==> r == [] || r[0] != '\n')
    decreases |s|
  {
    if s != [] {
      if s[0] == '\n' {
        CapNewlinesNoTriple(if run == 2 then 2 else run + 1, s[1..]);
        if run < 2 {
          Cons('\n', CapNewlines(run + 1, s[1..]));
        }
      } else {
        CapNewlinesNoTriple(0, s[1..]);
        Cons(s[0], CapNewlines(0, s[1..]));
      }
    }
  }

  /** The cap changes nothing on text without a run of three newlines,
      counting the `run` newlines just before it. */
  lemma {:induction false} CapNewlinesFixes(run: nat, s: string)
    requires run <= 2 && NoTripleNl(s)
    requires run == 1 ==> !(|s| >= 2 && s[0] == '\n' && s[1] == '\n')
    requires run == 2 ==> s == [] || s[0] != '\n'
    ensures CapNewlines(run, s) == s
    decreases |s|
  {
    if s != [] {
      assert s == [s[0]] + s[1..];
      Cons(s[0], s[1..]);
      assert !TripleNlAt(s, 0);
      CapNewlinesFixes(if s[0] == '\n' then run + 1 else 0, s[1..]);
    }
  }

  /** Inside a run of blanks that is not followed by a newline, what comes
      out after the run's first blank does not start with a newline. */
  lemma {:induction false} CollapseRunHead(b: char, t: string)
    requires Blank(b) && NoBlankNl([b] + t)
    ensures var r := CollapseBlanks(true, t); r == [] || r[0] != '\n'
    decreases |t|
  {
    if t != [] {
      Cons(b, t);
      assert !BlankNlAt([b] + t, 0);
      if Blank(t[0]) {
        assert t == [t[0]] + t[1..];
        CollapseRunHead(t[0], t[1..]);
      }
    }
  }

  /** Collapsing blanks keeps a blank away from a newline. */
  lemma {:induction false} CollapseKeepsBlankNl(inRun: bool, s: string)
    requires NoBlankNl(s)
    ensures NoBlankNl(CollapseBlanks(inRun, s))
    decreases |s|
  {
    if s != [] {
      assert s == [s[0]] + s[1..];
      Cons(s[0], s[1..]);
      var next := Blank(s[0]);
      CollapseKeepsBlankNl(next, s[1..]);
      if Blank(s[0]) {
        CollapseRunHead(s[0], s[1..]);
        if !inRun {
          Cons(if |s| > 1 && Blank(s[1]) then ' ' else s[0], CollapseBlanks(true, s[1..]));
        }
      } else {
        Cons(s[0], CollapseBlanks(false, s[1..]));
      }
    }
  }

  /** Collapsing blanks touches no newline. */
  lemma {:induction false} CollapseKeepsNoTriple(inRun: bool, s: string)
    requires NoTripleNl(s)
    ensures NoTripleNl(CollapseBlanks(inRun, s))
    decreases |s|
  {
    if s != [] {
      assert s == [s[0]] + s[1..];
      Cons(s[0], s[1..]);
      var t := s[1..];
      CollapseKeepsNoTriple(Blank(s[0]), t);
      if Blank(s[0]) {
        if !inRun {
          Cons(if |s| > 1 && Blank(s[1]) then ' ' else s[0], CollapseBlanks(true, t));
        }
      } else {
        var rest := CollapseBlanks(false, t);
        Cons(s[0], rest);
        assert !TripleNlAt(s, 0);
        if s[0] == '\n' && t != [] && t[0] == '\n' {
          assert rest == ['\n'] + CollapseBlanks(false, t[1..]);
        }
      }
    }
  }

  /** Collapsing blanks touches no letter, "-" or newline. */
  lemma {:induction false} CollapseKeepsNoJoinable(inRun: bool, s: string)
    requires NoJoinable(s)
    ensures NoJoinable(CollapseBlanks(inRun, s))
    decreases |s|
  {
    if s != [] {
      assert s == [s[0]] + s[1..];
      Cons(s[0], s[1..]);
      var t := s[1..];
      CollapseKeepsNoJoinable(Blank(s[0]), t);
      if Blank(s[0]) {
        if !inRun {
          Cons(if |s| > 1 && Blank(s[1]) then ' ' else s[0], CollapseBlanks(true, t));
        }
      } else {
        Cons(s[0], CollapseBlanks(false, t));
        CollapseJoinHead(s[0], t);
      }
    }
  }

  /** The collapse keeps a letter, "-", newline, letter from forming at the
      head of what it writes. */
  lemma CollapseJoinHead(c: char, t: string)
    requires !Blank(c) && !JoinableAt([c] + t, 0)
    ensures !JoinableAt([c] + CollapseBlanks(false, t), 0)
  {
    var rest := CollapseBlanks(false, t);
    if IsAsciiLetter(c) && t != [] && t[0] == '-' {
      assert rest == ['-'] + CollapseBlanks(false, t[1..]);
      if |t| >= 2 && t[1] == '\n' {
        assert CollapseBlanks(false, t[1..]) == ['\n'] + CollapseBlanks(false, t[2..]);
      }
    }
  }

  /** After the collapse no two blanks follow each other. */
  lemma {:induction false} CollapseNoDouble(inRun: bool, s: string)
    ensures NoDoubleBlank(CollapseBlanks(inRun, s))
    decreases |s|
  {
    if s != [] {
      CollapseNoDouble(Blank(s[0]), s[1..]);
      if Blank(s[0]) {
        if !inRun {
          Cons(if |s| > 1 && Blank(s[1]) then ' ' else s[0], CollapseBlanks(true, s[1..]));
        }
      } else {
        Cons(s[0], CollapseBlanks(false, s[1..]));
      }
    }
  }

  /** The collapse changes nothing on text without two blanks in a row,
      counting the blank just before it when `inRun`. */
  lemma {:induction false} CollapseFixes(inRun: bool, s: string)
    requires NoDoubleBlank(s)
    requires inRun ==> s == [] || !Blank(s[0])
    ensures CollapseBlanks(inRun, s) == s
    decreases |s|
  {
    if s != [] {
      assert s == [s[0]] + s[1..];
      Cons(s[0], s[1..]);
      assert !DoubleBlankAt(s, 0);
      CollapseFixes(Blank(s[0]), s[1..]);
    }
  }

  /** Trimming keeps what the text avoids and leaves no whitespace at
      either end. */
  lemma TrimKeeps(s: string)
    ensures var r := Trim(s);
            && Trimmed(r)
            && (NoBlankNl(s) ==> NoBlankNl(r))
            && (NoTripleNl(s) ==> NoTripleNl(r))
            && (NoDoubleBlank(s) ==> NoDoubleBlank(r))
            && (NoJoinable(s) ==> NoJoinable(r))
            && (CleanChars(s) ==> CleanChars(r))
  {
    var a, b := TrimSlice(s);
    Slice(s, a, b);
  }

  /** The as-written join changes nothing on text where it finds nothing to
      join. */
  lemma {:induction false} JoinHyphensFixes(s: string)
    requires NoJoinable(s)
    ensures JoinHyphens(s) == s
  {
    if s != [] {
      assert s == [s[0]] + s[1..];
      Cons(s[0], s[1..]);
      assert !JoinableAt(s, 0);
      JoinHyphensFixes(s[1..]);
    }
  }

  // Outside a match each pass keeps the text: where no match is cut in two
  // the pieces are processed on their own, and a match is replaced as its
  // pattern says.

  /** Only blanks. */
  predicate Blanks(s: string) { forall i :: 0 <= i < |s| ==> Blank(s[i]) }

  /** `n` newlines. */
  function Newlines(n: nat): (r: string)
    ensures |r| == n && forall i :: 0 <= i < n ==> r[i] == '\n'
  {
    seq(n, _ => '\n')
  }

  /** Cutting where no letter, "-", newline, letter is split: the
      as-written join handles the two pieces on their own. */
  lemma {:induction false} JoinHyphensConcat(a: string, b: string)
    requires forall i :: 0 <= i < |a| <= i + 3 ==> !JoinableAt(a + b, i)
    ensures JoinHyphens(a + b) == JoinHyphens(a) + JoinHyphens(b)
    decreases |a|
  {
    if a == [] {
      assert a + b == b;
    } else {
      var n, head := JoinHyphensHead(a, b);
      var rest := a[n..];
      forall i | 0 <= i < |rest| <= i + 3
        ensures !JoinableAt(rest + b, i)
      {
        JoinableShift(a, b, n, i);
      }
      JoinHyphensConcat(rest, b);
      Seqs.AppendAssoc(head, JoinHyphens(rest), JoinHyphens(b));
    }
  }

  lemma JoinableShift(a: string, b: string, n: nat, i: nat)
    requires n <= |a|
    ensures JoinableAt(a[n..] + b, i) == JoinableAt(a + b, i + n)
  {
    assert a[n..] + b == (a + b)[n..];
  }

  lemma JoinHyphensHead(a: string, b: string) returns (n: nat, head: string)
    requires a != []
    requires forall i :: 0 <= i < |a| <= i + 3 ==> !JoinableAt(a + b, i)
    ensures 0 < n <= |a|
    ensures JoinHyphens(a) == head + JoinHyphens(a[n..])
    ensures JoinHyphens(a + b) == head + JoinHyphens(a[n..] + b)
  {
    var s := a + b;
    if JoinableAt(s, 0) {
      assert 3 < |a|;
      assert s[0] == a[0] && s[1] == a[1] && s[2] == a[2] && s[3] == a[3];
      n, head := 4, [a[0], a[3]];
      assert s[4..] == a[4..] + b;
    } else {
      assert !JoinableAt(a, 0);
      n, head := 1, [a[0]];
      assert s[0] == a[0] && s[1..] == a[1..] + b;
    }
  }

  /** One match of the as-written join: the letters stay, "-" and the
      newline go. */
  lemma JoinHyphensOne(x: char, y: char)
    requires IsAsciiLetter(x) && IsAsciiLetter(y)
    ensures JoinHyphens([x, '-', '\n', y]) == [x, y]
  {
    assert [x, '-', '\n', y][4..] == [];
  }

  /** Whether the character before the text after `a` is a letter. */
  function AfterLetter(afterLetter: bool, a: string): bool {
    if a == [] then afterLetter else IsAsciiLetter(a[|a| - 1])
  }

  /** Cutting after a character that is neither "-" nor a newline splits no
      match of the corrected join, which looks at the letter before the
      cut. */
  lemma {:induction false} JoinBreaksConcat(afterLetter: bool, a: string, b: string)
    requires a == [] || (a[|a| - 1] != '-' && a[|a| - 1] != '\n')
    ensures JoinBreaks(afterLetter, a + b)
         == JoinBreaks(afterLetter, a) + JoinBreaks(AfterLetter(afterLetter, a), b)
    decreases |a|
  {
    if a == [] {
      assert a + b == b;
    } else {
      var n, head, al := JoinBreaksLead(afterLetter, a, b);
      var rest := a[n..];
      if n == |a| {
        Seqs.AppendEmpty(rest, b);
        Seqs.AppendEmpty(JoinBreaks(al, rest), head);
      } else {
        assert rest[|rest| - 1] == a[|a| - 1];
        JoinBreaksConcat(al, rest, b);
        Seqs.AppendAssoc(head, JoinBreaks(al, rest), JoinBreaks(AfterLetter(al, rest), b));
      }
    }
  }

  lemma JoinBreaksLead(afterLetter: bool, a: string, b: string) returns (n: nat, head: string, al: bool)
    requires a != [] && a[|a| - 1] != '-' && a[|a| - 1] != '\n'
    ensures 0 < n <= |a|
    ensures JoinBreaks(afterLetter, a) == head + JoinBreaks(al, a[n..])
    ensures JoinBreaks(afterLetter, a + b) == head + JoinBreaks(al, a[n..] + b)
    ensures AfterLetter(al, a[n..]) == AfterLetter(afterLetter, a)
  {
    var s := a + b;
    if afterLetter && |s| >= 3 && s[0] == '-' && s[1] == '\n' && IsAsciiLetter(s[2]) {
      assert 3 <= |a|;
      assert s[0] == a[0] && s[1] == a[1] && s[2] == a[2];
      n, head, al := 2, [], false;
      assert s[2..] == a[2..] + b;
      Seqs.AppendEmpty(head, JoinBreaks(al, a[n..]));
      Seqs.AppendEmpty(head, JoinBreaks(al, a[n..] + b));
    } else {
      n, head, al := 1, [a[0]], IsAsciiLetter(a[0]);
      assert s[0] == a[0] && s[1..] == a[1..] + b;
      if |a| >= 3 {
        assert s[1] == a[1] && s[2] == a[2];
      }
    }
  }

  /** One match of the corrected join: after a letter, "-" and a newline
      before a letter go. */
  lemma JoinBreaksOne(c: char)
    requires IsAsciiLetter(c)
    ensures JoinBreaks(true, ['-', '\n', c]) == [c]
  {
    assert ['-', '\n', c][2..] == [c];
  }

  /** Cutting after a character that is not a blank splits no blank run. */
  lemma {:induction false} DropBlanksConcat(a: string, b: string)
    requires a == [] || !Blank(a[|a| - 1])
    ensures DropBlanks(a + b) == DropBlanks(a) + DropBlanks(b)
    decreases |a|
  {
    if a == [] {
      assert a + b == b;
    } else {
      var s := a + b;
      var t := a[1..];
      assert s[0] == a[0] && s[1..] == t + b;
      if t == [] {
        Seqs.AppendEmpty(t, b);
        assert DropBlanks(a) == [a[0]];
      } else {
        assert t[|t| - 1] == a[|a| - 1];
        DropBlanksConcat(t, b);
        var rt := DropBlanks(t);
        assert (rt + DropBlanks(b))[0] == rt[0];
        if !(Blank(a[0]) && rt[0] == '\n') {
          Seqs.AppendAssoc([a[0]], rt, DropBlanks(b));
        }
      }
    }
  }

  /** A run of blanks goes when a newline follows it, and stays as it is
      before anything else or at the end of the text. */
  lemma {:induction false} DropBlanksRun(w: string, t: string)
    requires Blanks(w) && (t == [] || !Blank(t[0]))
    ensures DropBlanks(w + t) == (if t != [] && t[0] == '\n' then [] else w) + DropBlanks(t)
    decreases |w|
  {
    if w == [] {
      Seqs.AppendEmpty(w, t);
      Seqs.AppendEmpty(w, DropBlanks(t));
    } else {
      var s := w + t;
      var u := w[1..];
      assert s[0] == w[0] && s[1..] == u + t;
      assert Blanks(u);
      DropBlanksRun(u, t);
      var rest := DropBlanks(u + t);
      if t != [] && t[0] == '\n' {
        Seqs.AppendEmpty([], DropBlanks(t));
        assert rest == DropBlanks(t) && rest[0] == '\n';
      } else {
        assert rest == u + DropBlanks(t);
        if u != [] {
          assert rest[0] == w[1];
        }
        Seqs.AppendAssoc([w[0]], u, DropBlanks(t));
        assert [w[0]] + u == w;
      }
    }
  }

  /** Cutting after a character that is not a newline splits no newline
      run; the cap starts afresh after it. */
  lemma {:induction false} CapNewlinesConcat(run: nat, a: string, b: string)
    requires run <= 2 && a != [] && a[|a| - 1] != '\n'
    ensures CapNewlines(run, a + b) == CapNewlines(run, a) + CapNewlines(0, b)
    decreases |a|
  {
    var s := a + b;
    var t := a[1..];
    assert s[0] == a[0] && s[1..] == t + b;
    if a[0] == '\n' {
      assert t != [] && t[|t| - 1] == a[|a| - 1];
      var run' := if run == 2 then 2 else run + 1;
      CapNewlinesConcat(run', t, b);
      if run < 2 {
        Seqs.AppendAssoc("\n", CapNewlines(run', t), CapNewlines(0, b));
      }
    } else if t == [] {
      Seqs.AppendEmpty(t, b);
      assert CapNewlines(run, a) == [a[0]];
    } else {
      assert t[|t| - 1] == a[|a| - 1];
      CapNewlinesConcat(0, t, b);
      Seqs.AppendAssoc([a[0]], CapNewlines(0, t), CapNewlines(0, b));
    }
  }

  /** A run of `n` newlines after `run` newlines is cut down to what makes
      two in all; with `run == 0`, a run of three or more becomes exactly
      two newlines and a shorter run stays. */
  lemma {:induction false} CapNewlinesRun(run: nat, n: nat, t: string)
    requires run <= 2 && (t == [] || t[0] != '\n')
    ensures CapNewlines(run, Newlines(n) + t)
         == Newlines(if n < 2 - run then n else 2 - run) + CapNewlines(0, t)
    decreases n
  {
    var s := Newlines(n) + t;
    if n == 0 {
      Seqs.AppendEmpty(Newlines(0), t);
      Seqs.AppendEmpty(Newlines(0), CapNewlines(0, t));
    } else {
      assert s[0] == '\n' && s[1..] == Newlines(n - 1) + t;
      var run' := if run == 2 then 2 else run + 1;
      CapNewlinesRun(run', n - 1, t);
      if run < 2 {
        var k := if n - 1 < 2 - run' then n - 1 else 2 - run';
        assert "\n" + Newlines(k) == Newlines(k + 1);
        Seqs.AppendAssoc("\n", Newlines(k), CapNewlines(0, t));
      }
    }
  }

  /** Cutting after a character that is not a blank splits no blank run;
      the collapse starts afresh after it. */
  lemma {:induction false} CollapseBlanksConcat(inRun: bool, a: string, b: string)
    requires a != [] && !Blank(a[|a| - 1])
    ensures CollapseBlanks(inRun, a + b) == CollapseBlanks(inRun, a) + CollapseBlanks(false, b)
    decreases |a|
  {
    var s := a + b;
    var t := a[1..];
    assert s[0] == a[0] && s[1..] == t + b;
    if Blank(a[0]) {
      assert t != [] && t[|t| - 1] == a[|a| - 1] && s[1] == a[1];
      CollapseBlanksConcat(true, t, b);
      if !inRun {
        var head: string := if Blank(a[1]) then " " else [a[0]];
        Seqs.AppendAssoc(head, CollapseBlanks(true, t), CollapseBlanks(false, b));
      }
    } else if t == [] {
      Seqs.AppendEmpty(t, b);
      assert CollapseBlanks(inRun, a) == [a[0]];
    } else {
      assert t[|t| - 1] == a[|a| - 1];
      CollapseBlanksConcat(false, t, b);
      Seqs.AppendAssoc([a[0]], CollapseBlanks(false, t), CollapseBlanks(false, b));
    }
  }

  /** The rest of a blank run whose start was written adds nothing. */
  lemma {:induction false} CollapseBlanksSkip(w: string, t: string)
    requires Blanks(w) && (t == [] || !Blank(t[0]))
    ensures CollapseBlanks(true, w + t) == CollapseBlanks(false, t)
    decreases |w|
  {
    if w == [] {
      Seqs.AppendEmpty(w, t);
    } else {
      var s := w + t;
      assert s[0] == w[0] && s[1..] == w[1..] + t;
      assert Blanks(w[1..]);
      CollapseBlanksSkip(w[1..], t);
    }
  }

  /** A run of two or more blanks becomes one space, and a lone blank
      stays as it is, whatever follows. */
  lemma CollapseBlanksRun(w: string, t: string)
    requires Blanks(w) && (t == [] || !Blank(t[0]))
    ensures CollapseBlanks(false, w + t) == (if |w| >= 2 then " " else w) + CollapseBlanks(false, t)
  {
    var s := w + t;
    if w == [] {
      Seqs.AppendEmpty(w, t);
      Seqs.AppendEmpty(w, CollapseBlanks(false, t));
    } else {
      assert s[0] == w[0] && s[1..] == w[1..] + t;
      assert Blanks(w[1..]);
      CollapseBlanksSkip(w[1..], t);
      if |w| == 1 {
        assert |s| > 1 ==> s[1] == t[0];
        assert w == [w[0]];
      } else {
        assert s[1] == w[1];
      }
    }
  }

  // The clean-up as a whole.

  /** Text the clean-up leaves as it is: no character the map changes, no
      blank before a newline, no three newlines, no two blanks, no
      letter-hyphen-newline-letter, and no whitespace at either end. */
  ghost predicate PdfNormal(t: string) {
    CleanChars(t) && NoBlankNl(t) && NoTripleNl(t) && NoDoubleBlank(t) && NoJoinable(t) && Trimmed(t)
  }

  /** What `normalizePdfText` as written promises of its output: no `\r`
      and no other control character but the newline, no blank before a
      newline, never three newlines or two blanks in a row, and trimmed. It
      does not promise that no hyphenated line break is left. */
  lemma NormalizePdfTextGuarantees(s: string)
    ensures var r := NormalizePdfText(s);
            && CleanChars(r) && '\r' !in r
            && NoBlankNl(r) && NoTripleNl(r) && NoDoubleBlank(r) && Trimmed(r)
  {
    var a := MapPdfChars(s);
    CrToLfFixes(a);
    var c := JoinHyphens(a);
    CleanFrom(a, c);
    var d := DropBlanks(c);
    DropBlanksNoBlankNl(c);
    CleanFrom(c, d);
    var e := CapNewlines(0, d);
    CapNewlinesKeepsBlankNl(0, d);
    CapNewlinesNoTriple(0, d);
    CleanFrom(d, e);
    var f := CollapseBlanks(false, e);
    CollapseKeepsBlankNl(false, e);
    CollapseKeepsNoTriple(false, e);
    CollapseNoDouble(false, e);
    CleanFrom(e, f);
    TrimKeeps(f);
  }

  /** `normalizePdfText` as written leaves normal text as it is. */
  lemma NormalizePdfTextFixes(t: string)
    requires PdfNormal(t)
    ensures NormalizePdfText(t) == t
  {
    MapPdfCharsFixes(t);
    CrToLfFixes(t);
    JoinHyphensFixes(t);
    DropBlanksFixes(t);
    CapNewlinesFixes(0, t);
    CollapseFixes(false, t);
    TrimNoEndWs(t);
  }

  /** The corrected clean-up always produces normal text. */
  lemma NormalizePdfTextFixedNormal(s: string)
    ensures PdfNormal(NormalizePdfTextFixed(s))
  {
    var a := MapPdfChars(s);
    CrToLfFixes(a);
    var c := DropBlanks(a);
    DropBlanksNoBlankNl(a);
    CleanFrom(a, c);
    var d := JoinBreaks(false, c);
    JoinBreaksKeepsBlankNl(false, c);
    JoinBreaksNoJoinable(false, c);
    CleanFrom(c, d);
    var e := CapNewlines(0, d);
    CapNewlinesKeepsBlankNl(0, d);
    CapNewlinesKeepsNoJoinable(0, d);
    CapNewlinesNoTriple(0, d);
    CleanFrom(d, e);
    var f := CollapseBlanks(false, e);
    CollapseKeepsBlankNl(false, e);
    CollapseKeepsNoTriple(false, e);
    CollapseKeepsNoJoinable(false, e);
    CollapseNoDouble(false, e);
    CleanFrom(e, f);
    TrimKeeps(f);
  }

  /** The corrected clean-up leaves normal text as it is, and only normal
      text: its fixed points are exactly the normal strings. */
  lemma NormalizePdfTextFixedFixes(t: string)
    ensures NormalizePdfTextFixed(t) == t <==> PdfNormal(t)
  {
    NormalizePdfTextFixedNormal(t);
    if PdfNormal(t) {
      MapPdfCharsFixes(t);
      CrToLfFixes(t);
      DropBlanksFixes(t);
      JoinBreaksFixes(false, t);
      CapNewlinesFixes(0, t);
      CollapseFixes(false, t);
      TrimNoEndWs(t);
    }
  }

  /** Cleaning up cleaned-up text changes nothing. */
  lemma NormalizePdfTextFixedIdempotent(s: string)
    ensures NormalizePdfTextFixed(NormalizePdfTextFixed(s)) == NormalizePdfTextFixed(s)
  {
    NormalizePdfTextFixedNormal(s);
    NormalizePdfTextFixedFixes(NormalizePdfTextFixed(s));
  }

  /** As written, a blank between the hyphen and the line break hides the
      break from the join until the blank is gone, so a second call joins
      what the first left: the clean-up is not idempotent. */
  lemma NormalizePdfTextNotIdempotent(a: char, b: char)
    requires IsAsciiLetter(a) && IsAsciiLetter(b)
    ensures NormalizePdfText([a, '-', ' ', '\n', b]) == [a, '-', '\n', b]
    ensures NormalizePdfText(NormalizePdfText([a, '-', ' ', '\n', b])) == [a, b]
    ensures NormalizePdfText([a, '-', ' ', '\n', b]) != NormalizePdfText(NormalizePdfText([a, '-', ' ', '\n', b]))
  {
    AsWrittenLeavesBreak(a, b);
    AsWrittenJoinsBreak(a, b);
  }

  /** The corrected clean-up joins the same break in one call. */
  lemma NormalizePdfTextFixedJoins(a: char, b: char)
    requires IsAsciiLetter(a) && IsAsciiLetter(b)
    ensures NormalizePdfTextFixed([a, '-', ' ', '\n', b]) == [a, b]
  {
    var s, u := [a, '-', ' ', '\n', b], [a, b];
    MapsNothing(a, b);
    DropBlanksExample(a, b);
    JoinBreaksExample(a, b);
    Settled(u);
  }

  lemma JoinBreaksExample(a: char, b: char)
    requires IsAsciiLetter(a) && IsAsciiLetter(b)
    ensures JoinBreaks(false, [a, '-', '\n', b]) == [a, b]
  {
    var t := [a, '-', '\n', b];
    assert t[1..] == ['-', '\n', b] && t[1..][2..] == [b];
    assert JoinBreaks(true, t[1..]) == JoinBreaks(false, [b]);
  }

  lemma AsWrittenLeavesBreak(a: char, b: char)
    requires IsAsciiLetter(a) && IsAsciiLetter(b)
    ensures NormalizePdfText([a, '-', ' ', '\n', b]) == [a, '-', '\n', b]
  {
    var s := [a, '-', ' ', '\n', b];
    MapsNothing(a, b);
    BlankHidesBreak(a, b);
    JoinHyphensFixes(s);
    DropBlanksExample(a, b);
    BreakSettled(a, b);
  }

  lemma BlankHidesBreak(a: char, b: char)
    ensures NoJoinable([a, '-', ' ', '\n', b])
  {
  }

  /** A letter, "-", newline, letter passes the cap, the collapse and the
      trim unchanged. */
  lemma BreakSettled(a: char, b: char)
    requires IsAsciiLetter(a) && IsAsciiLetter(b)
    ensures var t := [a, '-', '\n', b]; Trim(CollapseBlanks(false, CapNewlines(0, t))) == t
  {
    var t := [a, '-', '\n', b];
    assert NoTripleNl(t) && NoDoubleBlank(t);
    CapNewlinesFixes(0, t);
    CollapseFixes(false, t);
    TrimNoEndWs(t);
  }

  lemma AsWrittenJoinsBreak(a: char, b: char)
    requires IsAsciiLetter(a) && IsAsciiLetter(b)
    ensures NormalizePdfText([a, '-', '\n', b]) == [a, b]
  {
    var t, u := [a, '-', '\n', b], [a, b];
    MapsNothing(a, b);
    assert t[4..] == [];
    assert JoinHyphens(t) == u;
    Settled(u);
  }

  /** The character map and the carriage-return passes leave both inputs
      of the example as they are. */
  lemma MapsNothing(a: char, b: char)
    requires IsAsciiLetter(a) && IsAsciiLetter(b)
    ensures var s := [a, '-', ' ', '\n', b]; MapPdfChars(s) == s && CrToLf(s) == s
    ensures var t := [a, '-', '\n', b]; MapPdfChars(t) == t && CrToLf(t) == t
  {
    var s, t := [a, '-', ' ', '\n', b], [a, '-', '\n', b];
    assert CleanChars(s) && CleanChars(t);
    MapPdfCharsFixes(s);
    CrToLfFixes(s);
    MapPdfCharsFixes(t);
    CrToLfFixes(t);
  }

  lemma DropBlanksExample(a: char, b: char)
    ensures DropBlanks([a, '-', ' ', '\n', b]) == [a, '-', '\n', b]
  {
    var s := [a, '-', ' ', '\n', b];
    assert s[4..] == [b] && DropBlanks(s[4..]) == [b];
    assert s[3..] == ['\n'] + s[4..] && DropBlanks(s[3..]) == ['\n', b];
    assert s[2..] == [' '] + s[3..] && DropBlanks(s[2..]) == ['\n', b];
    assert s[1..] == ['-'] + s[2..] && DropBlanks(s[1..]) == ['-', '\n', b];
  }

  /** Two letters pass the rest of the chain unchanged. */
  lemma Settled(u: string)
    requires |u| == 2 && IsAsciiLetter(u[0]) && IsAsciiLetter(u[1])
    ensures Trim(CollapseBlanks(false, CapNewlines(0, DropBlanks(u)))) == u
  {
    assert NoBlankNl(u) && NoTripleNl(u) && NoDoubleBlank(u);
    DropBlanksFixes(u);
    CapNewlinesFixes(0, u);
    CollapseFixes(false, u);
    TrimNoEndWs(u);
  }

  // What the clean-up keeps.

  /** A character no pass of the clean-up touches: not whitespace, not a
      hyphen, and not one the character map changes. */
  predicate IsInk(c: char) { !IsWs(c) && c != '-' && !Mapped(c) }

  /** The characters of `s` no pass touches, in order. */
  function Ink(s: string): (r: string)
    ensures |r| <= |s|
    ensures forall i :: 0 <= i < |r| ==> IsInk(r[i])
  {
    if s == [] then []
    else if IsInk(s[0]) then [s[0]] + Ink(s[1..])
    else Ink(s[1..])
  }

  lemma {:induction false} InkConcat(a: string, b: string)
    ensures Ink(a + b) == Ink(a) + Ink(b)
    decreases |a|
  {
    if a != [] {
      assert (a + b)[1..] == a[1..] + b;
      InkConcat(a[1..], b);
    } else {
      assert a + b == b;
    }
  }

  /** Dropping the whitespace first leaves the same characters behind. */
  lemma {:induction false} InkRemoveWs(s: string)
    ensures Ink(RemoveWs(s)) == Ink(s)
    decreases |s|
  {
    if s != [] {
      InkRemoveWs(s[1..]);
      if !IsWs(s[0]) {
        InkConcat([s[0]], RemoveWs(s[1..]));
        InkConcat([s[0]], s[1..]);
        assert s == [s[0]] + s[1..];
      }
    }
  }

  /** The character map keeps every character it does not change. */
  lemma {:induction false} InkMapPdfChars(s: string)
    ensures Ink(MapPdfChars(s)) == Ink(s)
    decreases |s|
  {
    if s != [] {
      InkMapPdfChars(s[1..]);
      InkConcat(MapChar(s[0]), MapPdfChars(s[1..]));
      InkConcat([s[0]], s[1..]);
      assert s == [s[0]] + s[1..];
      assert Ink(MapChar(s[0])) == Ink([s[0]]);
    }
  }

  /** A letter, "-", a newline and a letter hold the ink of the two letters. */
  lemma InkOfBreak(s: string)
    requires JoinableAt(s, 0)
    ensures Ink(s) == [s[0], s[3]] + Ink(s[4..])
  {
    var t := s[4..];
    assert s == [s[0], s[1], s[2], s[3]] + t;
    InkConcat([s[0], s[1], s[2], s[3]], t);
    InkOfLetters(s[0], s[3]);
  }

  lemma InkOfLetters(a: char, b: char)
    requires IsAsciiLetter(a) && IsAsciiLetter(b)
    ensures Ink([a, '-', '\n', b]) == [a, b]
  {
    var t := [a, '-', '\n', b];
    assert [b][1..] == [] && Ink([b]) == [b];
    assert ['\n', b][1..] == [b] && Ink(['\n', b]) == [b];
    assert ['-', '\n', b][1..] == ['\n', b] && Ink(['-', '\n', b]) == [b];
    assert t[1..] == ['-', '\n', b];
  }

  /** The as-written join removes only hyphens and newlines. */
  lemma {:induction false} InkJoinHyphens(s: string)
    ensures Ink(JoinHyphens(s)) == Ink(s)
    decreases |s|
  {
    if JoinableAt(s, 0) {
      InkJoinHyphens(s[4..]);
      InkConcat([s[0], s[3]], JoinHyphens(s[4..]));
      InkOfBreak(s);
      assert Ink([s[0], s[3]]) == [s[0], s[3]] by {
        InkConcat([s[0]], [s[3]]);
        assert [s[0], s[3]] == [s[0]] + [s[3]];
      }
    } else if s != [] {
      InkJoinHyphens(s[1..]);
      InkConcat([s[0]], JoinHyphens(s[1..]));
      InkConcat([s[0]], s[1..]);
      assert s == [s[0]] + s[1..];
    }
  }

  /** The corrected join removes only hyphens and newlines. */
  lemma {:induction false} InkJoinBreaks(afterLetter: bool, s: string)
    ensures Ink(JoinBreaks(afterLetter, s)) == Ink(s)
    decreases |s|
  {
    if s == [] {
    } else if afterLetter && |s| >= 3 && s[0] == '-' && s[1] == '\n' && IsAsciiLetter(s[2]) {
      InkJoinBreaks(false, s[2..]);
      assert s[1..][1..] == s[2..];
    } else {
      InkJoinBreaks(IsAsciiLetter(s[0]), s[1..]);
      InkConcat([s[0]], JoinBreaks(IsAsciiLetter(s[0]), s[1..]));
      InkConcat([s[0]], s[1..]);
      assert s == [s[0]] + s[1..];
    }
  }

  /** Dropping blanks before a newline changes only whitespace. */
  lemma {:induction false} DropBlanksKeepsText(s: string)
    ensures RemoveWs(DropBlanks(s)) == RemoveWs(s)
    decreases |s|
  {
    if s != [] {
      DropBlanksKeepsText(s[1..]);
      RemoveWsConcat([s[0]], DropBlanks(s[1..]));
      RemoveWsConcat([s[0]], s[1..]);
      assert s == [s[0]] + s[1..];
    }
  }

  /** Capping newline runs changes only whitespace. */
  lemma {:induction false} CapNewlinesKeepsText(run: nat, s: string)
    requires run <= 2
    ensures RemoveWs(CapNewlines(run, s)) == RemoveWs(s)
    decreases |s|
  {
    if s != [] {
      var next := if s[0] == '\n' then (if run == 2 then 2 else run + 1) else 0;
      CapNewlinesKeepsText(next, s[1..]);
      RemoveWsConcat([s[0]], CapNewlines(next, s[1..]));
      RemoveWsConcat([s[0]], s[1..]);
      assert s == [s[0]] + s[1..];
    }
  }

  /** Collapsing blank runs changes only whitespace. */
  lemma {:induction false} CollapseKeepsText(inRun: bool, s: string)
    ensures RemoveWs(CollapseBlanks(inRun, s)) == RemoveWs(s)
    decreases |s|
  {
    if s != [] {
      var next := Blank(s[0]);
      CollapseKeepsText(next, s[1..]);
      RemoveWsConcat([s[0]], CollapseBlanks(next, s[1..]));
      RemoveWsConcat(" ", CollapseBlanks(next, s[1..]));
      RemoveWsConcat([s[0]], s[1..]);
      assert s == [s[0]] + s[1..];
    }
  }

  /** As written, every pass after the hyphen join changes only whitespace:
      the non-whitespace characters of the output are those the join
      leaves of the mapped text, in order. */
  lemma NormalizePdfTextKeepsText(s: string)
    ensures RemoveWs(NormalizePdfText(s)) == RemoveWs(JoinHyphens(MapPdfChars(s)))
  {
    var a := MapPdfChars(s);
    CrToLfFixes(a);
    var d := DropBlanks(JoinHyphens(a));
    DropBlanksKeepsText(JoinHyphens(a));
    var e := CapNewlines(0, d);
    CapNewlinesKeepsText(0, d);
    var f := CollapseBlanks(false, e);
    CollapseKeepsText(false, e);
    RemoveWsTrim(f);
  }

  /** With no hyphenated line break in the mapped text, the clean-up keeps
      every non-whitespace character of the mapped text, in order. */
  lemma NormalizePdfTextKeepsAll(s: string)
    ensures NoJoinable(MapPdfChars(s)) ==> RemoveWs(NormalizePdfText(s)) == RemoveWs(MapPdfChars(s))
  {
    NormalizePdfTextKeepsText(s);
    if NoJoinable(MapPdfChars(s)) {
      JoinHyphensFixes(MapPdfChars(s));
    }
  }

  /** Every character that is not whitespace, not a hyphen and not one the
      map changes survives the clean-up, in order, and no other such
      character appears: what the clean-up removes beyond the map and the
      whitespace is hyphens. */
  lemma NormalizePdfTextKeepsInk(s: string)
    ensures Ink(NormalizePdfText(s)) == Ink(s)
  {
    NormalizePdfTextKeepsText(s);
    InkRemoveWs(NormalizePdfText(s));
    InkRemoveWs(JoinHyphens(MapPdfChars(s)));
    InkJoinHyphens(MapPdfChars(s));
    InkMapPdfChars(s);
  }

  /** The corrected clean-up keeps the same characters. */
  lemma NormalizePdfTextFixedKeepsInk(s: string)
    ensures Ink(NormalizePdfTextFixed(s)) == Ink(s)
  {
    var a := MapPdfChars(s);
    CrToLfFixes(a);
    InkMapPdfChars(s);
    var b := DropBlanks(a);
    DropBlanksKeepsText(a);
    InkRemoveWs(a);
    InkRemoveWs(b);
    var c := JoinBreaks(false, b);
    InkJoinBreaks(false, b);
    InkRemoveWs(c);
    var d := CapNewlines(0, c);
    CapNewlinesKeepsText(0, c);
    var e := CollapseBlanks(false, d);
    CollapseKeepsText(false, d);
    RemoveWsTrim(e);
    InkRemoveWs(Trim(e));
  }

  // The extraction helper.

  /** What pdf-parse reports: the text, if any, and the page count, if it is
      a number. */
  datatype Parsed = Parsed(text: Option<string>, numpages: Option<int>)

  /** What `extractPdfTextFromBuffer` returns. */
  datatype Extracted = Extracted(text: string, charCount: nat, pageCount: Option<int>)

  /** `extractPdfTextFromBuffer` after parsing: the cleaned-up text (of ""
      when the parser found none), its length, and the page count only when
      the parser gave a number. */
  function ExtractPdfTextFromBuffer(parsed: Parsed): (r: Extracted)
    ensures r.charCount == |r.text| && r.pageCount == parsed.numpages
    ensures parsed.text.None? ==> r.text == []
    ensures CleanChars(r.text) && '\r' !in r.text && Trimmed(r.text)
    ensures NoBlankNl(r.text) && NoTripleNl(r.text) && NoDoubleBlank(r.text)
    ensures Ink(r.text) == Ink(parsed.text.GetOr(""))
    ensures NoJoinable(MapPdfChars(parsed.text.GetOr("")))
            ==> RemoveWs(r.text) == RemoveWs(MapPdfChars(parsed.text.GetOr("")))
  {
    var raw := parsed.text.GetOr("");
    NormalizePdfTextGuarantees(raw);
    NormalizePdfTextKeepsInk(raw);
    NormalizePdfTextKeepsAll(raw);
    var text := NormalizePdfText(raw);
    Extracted(text, |text|, parsed.numpages)
  }
}
