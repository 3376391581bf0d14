/** Strings as the workers see them: JavaScript's `\s` character class,
    `String.prototype.trim`, and the whitespace normaliser
    `replace(/\s+/g, " ").trim()` that several workers share. */
module Text {
  import Seqs

  /** A character matched by `\s` in a JavaScript regular expression
      (white space and line terminators); `trim` removes exactly these. */
  predicate IsWs(c: char) {
    c == '\t' || c == '\n' || c == '\U{B}' || c == '\U{C}' || c == '\r' || c == ' '
    || c == '\U{A0}' || c == '\U{1680}' || ('\U{2000}' <= c <= '\U{200A}')
    || c == '\U{2028}' || c == '\U{2029}' || c == '\U{202F}' || c == '\U{205F}'
    || c == '\U{3000}' || c == '\U{FEFF}'
  }

  predicate IsAsciiLetter(c: char) { 'a' <= c <= 'z' || 'A' <= c <= 'Z' }

  predicate IsLower(c: char) { 'a' <= c <= 'z' }

  predicate IsDigit(c: char) { '0' <= c <= '9' }

  /** The class `[A-Za-z0-9]`. */
  predicate IsAlnum(c: char) { IsAsciiLetter(c) || IsDigit(c) }

  /** Every character of `s` is whitespace (also true of the empty string). */
  predicate AllWs(s: string) {
    forall i :: 0 <= i < |s| ==> IsWs(s[i])
  }

  /** The first index at or after `i` that does not hold whitespace, or `|s|`. */
  function SkipWs(s: string, i: nat): (r: nat)
    requires i <= |s|
    ensures i <= r <= |s|
    ensures forall j :: i <= j < r ==> IsWs(s[j])
    ensures r < |s| ==> !IsWs(s[r])
    decreases |s| - i
  {
    if i < |s| && IsWs(s[i]) then SkipWs(s, i + 1) else i
  }

  /** The index just past the last character before `j` that is not
      whitespace, or 0. */
  function SkipWsBack(s: string, j: nat): (r: nat)
    requires j <= |s|
    ensures r <= j
    ensures forall k :: r <= k < j ==> IsWs(s[k])
    ensures r > 0 ==> !IsWs(s[r - 1])
    decreases j
  {
    if j > 0 && IsWs(s[j - 1]) then SkipWsBack(s, j - 1) else j
  }

  /** `replace(/^\s+/, "")`: the input with its leading whitespace run cut
      off, so what remains is a suffix that is empty or starts with a
      character that is not whitespace. */
  function TrimStart(s: string): (r: string)
    ensures |r| <= |s| && r == s[|s| - |r|..]
    ensures forall j :: 0 <= j < |s| - |r| ==> IsWs(s[j])
    ensures r == [] || !IsWs(r[0])
  {
    s[SkipWs(s, 0)..]
  }

  /** Whitespace in front of text that does not start with whitespace is
      what `TrimStart` removes; text that does not consist of whitespace
      only keeps what follows it. */
  lemma TrimStartConcat(a: string, b: string)
    ensures AllWs(a) && (b == [] || !IsWs(b[0])) ==> TrimStart(a + b) == b
    ensures !AllWs(a) ==> TrimStart(a + b) == TrimStart(a) + b
  {
    var s := a + b;
    if AllWs(a) && (b == [] || !IsWs(b[0])) {
      assert forall j :: 0 <= j < |a| ==> s[j] == a[j];
      assert |a| < |s| ==> s[|a|] == b[0];
      assert SkipWs(s, 0) == |a|;
      assert s[|a|..] == b;
    }
    if !AllWs(a) {
      var k := SkipWs(a, 0);
      assert k < |a|;
      assert forall j :: 0 <= j <= k ==> s[j] == a[j];
      assert SkipWs(s, 0) == k;
      assert s[k..] == a[k..] + b;
    }
  }

  /** `String.prototype.trim`. */
  function Trim(s: string): (r: string)
    ensures |r| <= |s|
    ensures r == [] || (!IsWs(r[0]) && !IsWs(r[|r| - 1]))
    ensures r == [] <==> AllWs(s)
  {
    var a := SkipWs(s, 0);
    if a == |s| then []
    else
      var b := SkipWsBack(s, |s|);
      assert a < b by { assert !IsWs(s[a]); }
      s[a..b]
  }

  /** `Trim(s)` is the slice of `s` left after dropping whitespace at both ends. */
  lemma TrimSlice(s: string) returns (a: nat, b: nat)
    ensures a <= b <= |s| && Trim(s) == s[a..b]
    ensures AllWs(s[..a]) && AllWs(s[b..])
  {
    a := SkipWs(s, 0);
    if a == |s| {
      b := a;
    } else {
      b := SkipWsBack(s, |s|);
      assert a < b by { assert !IsWs(s[a]); }
    }
    assert forall j :: 0 <= j < a ==> s[..a][j] == s[j];
    assert forall j :: 0 <= j < |s| - b ==> s[b..][j] == s[b + j];
  }

  /** Only single spaces: the one whitespace character is ' ', and no two
      spaces are adjacent. */
  predicate SingleSpaced(s: string) {
    && (forall i :: 0 <= i < |s| && IsWs(s[i]) ==> s[i] == ' ')
    && (forall i, j {:trigger s[i], s[j]} :: 0 <= i < |s| && j == i + 1 && j < |s| ==> !(s[i] == ' ' && s[j] == ' '))
  }

  /** What the whitespace normaliser produces: single spaces, nothing at the ends. */
  predicate Normalized(s: string) {
    SingleSpaced(s) && (s == [] || (s[0] != ' ' && s[|s| - 1] != ' '))
  }

  /** `replace(/\s+/g, " ")`: every maximal whitespace run becomes one space. */
  function CollapseWs(s: string): (r: string)
    ensures |r| <= |s|
    ensures r == [] <==> s == []
    ensures r != [] ==> (r[0] == ' ' <==> IsWs(s[0]))
    ensures r != [] ==> (r[|r| - 1] == ' ' <==> IsWs(s[|s| - 1]))
    ensures SingleSpaced(r)
    decreases |s|
  {
    if s == [] then []
    else if IsWs(s[0]) then
      var t := TrimStart(s);
      assert t == [] || t[|t| - 1] == s[|s| - 1];
      " " + CollapseWs(t)
    else
      [s[0]] + CollapseWs(s[1..])
  }

  /** Cutting a string where no whitespace run is split: the pieces are
      collapsed on their own. */
  lemma {:induction false} CollapseWsConcat(a: string, b: string)
    requires a == [] || b == [] || !IsWs(a[|a| - 1]) || !IsWs(b[0])
    ensures CollapseWs(a + b) == CollapseWs(a) + CollapseWs(b)
    decreases |a|
  {
    if a == [] {
      assert a + b == b;
    } else if b == [] {
      assert a + b == a;
    } else if !IsWs(a[0]) {
      CollapseWsHead(a, b);
      CollapseWsConcat(a[1..], b);
      CollapseWsStep(a, b, [a[0]], a[1..]);
    } else if AllWs(a) {
      CollapseWsRunConcat(a, b);
    } else {
      var t := TrimStart(a);
      CollapseWsLead(a, b);
      CollapseWsConcat(t, b);
      CollapseWsStep(a, b, " ", t);
    }
  }

  lemma CollapseWsHead(a: string, b: string)
    requires a != [] && !IsWs(a[0])
    ensures CollapseWs(a + b) == [a[0]] + CollapseWs(a[1..] + b)
  {
    var ab := a + b;
    assert ab[0] == a[0] && ab[1..] == a[1..] + b;
  }

  lemma CollapseWsLead(a: string, b: string)
    requires a != [] && IsWs(a[0]) && !AllWs(a)
    ensures var t := TrimStart(a);
      t != [] && t[|t| - 1] == a[|a| - 1] && |t| < |a|
      && CollapseWs(a + b) == " " + CollapseWs(t + b)
  {
    var t := TrimStart(a);
    TrimStartConcat(a, b);
    var ab := a + b;
    assert ab[0] == a[0];
  }

  /** One step of the collapse of `a + b`: when `a` and `a + b` both begin
      with `head` followed by the collapse of `t` and of `t + b`, the
      equation for `t` gives the one for `a`. */
  lemma CollapseWsStep(a: string, b: string, head: string, t: string)
    requires a != []
    requires CollapseWs(a) == head + CollapseWs(t)
    requires CollapseWs(a + b) == head + CollapseWs(t + b)
    requires CollapseWs(t + b) == CollapseWs(t) + CollapseWs(b)
    ensures CollapseWs(a + b) == CollapseWs(a) + CollapseWs(b)
  {
    Seqs.AppendAssoc(head, CollapseWs(t), CollapseWs(b));
  }

  /** A whitespace run followed by text that does not start with whitespace. */
  lemma CollapseWsRunConcat(a: string, b: string)
    requires a != [] && AllWs(a) && b != [] && !IsWs(b[0])
    ensures CollapseWs(a + b) == CollapseWs(a) + CollapseWs(b)
  {
    var ab := a + b;
    assert ab[0] == a[0];
    TrimStartConcat(a, b);
    TrimStartConcat(a, []);
    assert a + [] == a;
    assert CollapseWs(a) == " ";
    assert CollapseWs(ab) == " " + CollapseWs(b);
  }

  /** A whitespace run on its own becomes one space. */
  lemma CollapseWsRun(w: string)
    requires w != [] && AllWs(w)
    ensures CollapseWs(w) == " "
  {
    TrimStartConcat(w, []);
    assert w + [] == w;
  }

  /** Every maximal whitespace run becomes exactly one space, whatever
      stands on either side of it. */
  lemma CollapseWsBetween(a: string, w: string, b: string)
    requires a == [] || !IsWs(a[|a| - 1])
    requires w != [] && AllWs(w)
    requires b == [] || !IsWs(b[0])
    ensures CollapseWs(a + w + b) == CollapseWs(a) + " " + CollapseWs(b)
  {
    assert (w + b)[0] == w[0];
    calc {
      CollapseWs(a + w + b);
      { Seqs.AppendAssoc(a, w, b); }
      CollapseWs(a + (w + b));
      { CollapseWsConcat(a, w + b); }
      CollapseWs(a) + CollapseWs(w + b);
      { CollapseWsConcat(w, b); CollapseWsRun(w); }
      CollapseWs(a) + (" " + CollapseWs(b));
      { Seqs.AppendAssoc(CollapseWs(a), " ", CollapseWs(b)); }
      CollapseWs(a) + " " + CollapseWs(b);
    }
  }

  /** `Trim` of text with whitespace only around a middle that starts and
      ends with something else is that middle. */
  lemma TrimAround(p: string, m: string, q: string)
    requires AllWs(p) && AllWs(q)
    requires m != [] && !IsWs(m[0]) && !IsWs(m[|m| - 1])
    ensures Trim(p + m + q) == m
  {
    var s := p + m + q;
    var e := |p| + |m|;
    assert forall j :: 0 <= j < |p| ==> s[j] == p[j];
    assert forall j :: e <= j < |s| ==> s[j] == q[j - e];
    assert s[|p|] == m[0] && s[e - 1] == m[|m| - 1];
    assert SkipWs(s, 0) == |p|;
    assert SkipWsBack(s, |s|) == e;
    assert s[|p|..e] == m;
  }

  /** What the normaliser makes of text around which collapse left no
      whitespace at the end (or the start). */
  lemma NormalizedEnds(s: string) returns (a: nat)
    requires s != [] && !IsWs(s[|s| - 1])
    ensures a < |s| && AllWs(s[..a]) && Trim(s) == s[a..]
  {
    var b: nat;
    a, b := TrimSlice(s);
    assert b == |s|;
    assert !AllWs(s);
    assert s[a..b] == s[a..];
  }

  lemma NormalizedStarts(s: string) returns (b: nat)
    requires s != [] && !IsWs(s[0])
    ensures 0 < b <= |s| && AllWs(s[b..]) && Trim(s) == s[..b]
  {
    var a: nat;
    a, b := TrimSlice(s);
    assert a == 0;
    assert !AllWs(s);
    assert s[a..b] == s[..b];
  }

  /** Trimming two pieces joined by one space around which there is no
      whitespace trims each piece on its own side. */
  lemma TrimJoin(x: string, y: string)
    requires x != [] && !IsWs(x[|x| - 1])
    requires y != [] && !IsWs(y[0])
    ensures Trim(x + " " + y) == Trim(x) + " " + Trim(y)
  {
    var i := NormalizedEnds(x);
    var j := NormalizedStarts(y);
    var m := x[i..] + " " + y[..j];
    assert x == x[..i] + x[i..] && y == y[..j] + y[j..];
    calc {
      x + " " + y;
      (x[..i] + x[i..]) + " " + (y[..j] + y[j..]);
      x[..i] + m + y[j..];
    }
    assert m[0] == x[i];
    assert m[|m| - 1] == y[j - 1];
    TrimAround(x[..i], m, y[j..]);
  }

  /** The whitespace normaliser puts exactly one space between two words:
      a run of whitespace between non-whitespace characters becomes one
      space, and the text on either side is normalised on its own. */
  lemma NormalizeWhitespaceBetween(a: string, w: string, b: string)
    requires a != [] && !IsWs(a[|a| - 1])
    requires w != [] && AllWs(w)
    requires b != [] && !IsWs(b[0])
    ensures NormalizeWhitespace(a + w + b) == NormalizeWhitespace(a) + " " + NormalizeWhitespace(b)
  {
    CollapseWsBetween(a, w, b);
    var x, y := CollapseWs(a), CollapseWs(b);
    assert !IsWs(x[|x| - 1]) by { assert x[|x| - 1] != ' '; }
    assert !IsWs(y[0]) by { assert y[0] != ' '; }
    TrimJoin(x, y);
  }

  /** Two normalised non-empty texts joined by one space make normalised text. */
  lemma NormalizedJoin(x: string, y: string)
    requires x != [] && y != [] && Normalized(x) && Normalized(y)
    ensures Normalized(x + " " + y)
  {
    var s := x + " " + y;
    var n := |x|;
    assert forall i :: 0 <= i < n ==> s[i] == x[i];
    assert s[n] == ' ';
    assert forall i :: n < i < |s| ==> s[i] == y[i - n - 1];
  }

  /** `(text ?? "").replace(/\s+/g, " ").trim()` — `normalizeExtractedText`
      and `normalizeText` in the text-extraction workers, and the whitespace
      passes of the HTML normalisers. */
  function NormalizeWhitespace(s: string): string {
    Trim(CollapseWs(s))
  }

  lemma SliceSingleSpaced(s: string, a: nat, b: nat)
    requires a <= b <= |s| && SingleSpaced(s)
    ensures SingleSpaced(s[a..b])
  {
    var t := s[a..b];
    forall i | 0 <= i < |t| - 1 ensures !(t[i] == ' ' && t[i + 1] == ' ') {
      assert t[i] == s[a + i] && t[i + 1] == s[a + i + 1];
    }
  }

  /** The normaliser's output has single spaces and no whitespace at either end. */
  lemma NormalizeWhitespaceNormalized(s: string)
    ensures Normalized(NormalizeWhitespace(s))
  {
    var c := CollapseWs(s);
    var a, b := TrimSlice(c);
    SliceSingleSpaced(c, a, b);
  }

  /** A string that is already normalised is left unchanged. */
  lemma {:induction false} CollapseFixesSingleSpaced(s: string)
    requires SingleSpaced(s)
    requires s == [] || !IsWs(s[0]) || |s| == 1 || !IsWs(s[1])
    ensures CollapseWs(s) == s
    decreases |s|
  {
    if s == [] {
    } else if IsWs(s[0]) {
      assert s[0] == ' ';
      if |s| > 1 {
        assert s[1] != ' ';
      }
      TrimStartOne(s);
      SliceSingleSpaced(s, 1, |s|);
      CollapseFixesSingleSpaced(s[1..]);
      assert s == " " + s[1..];
    } else {
      SliceSingleSpaced(s, 1, |s|);
      if |s| > 2 && IsWs(s[1]) {
        assert s[1] == ' ';
        assert s[2] != ' ';
      }
      CollapseFixesSingleSpaced(s[1..]);
      assert s == [s[0]] + s[1..];
    }
  }

  /** A single leading whitespace character is all `TrimStart` removes. */
  lemma TrimStartOne(s: string)
    requires s != [] && IsWs(s[0]) && (|s| == 1 || !IsWs(s[1]))
    ensures TrimStart(s) == s[1..]
  {
    assert SkipWs(s, 1) == 1;
  }

  /** A string with no whitespace at either end is its own trim. */
  lemma TrimNoEndWs(s: string)
    requires s == [] || (!IsWs(s[0]) && !IsWs(s[|s| - 1]))
    ensures Trim(s) == s
  {
    if s != [] {
      assert SkipWs(s, 0) == 0;
      assert SkipWsBack(s, |s|) == |s|;
    }
  }

  lemma NormalizeWhitespaceFixesNormalized(s: string)
    requires Normalized(s)
    ensures NormalizeWhitespace(s) == s
  {
    if s != [] {
      assert !IsWs(s[0]) by { assert s[0] != ' '; }
      assert !IsWs(s[|s| - 1]) by { assert s[|s| - 1] != ' '; }
    }
    CollapseFixesSingleSpaced(s);
    TrimNoEndWs(s);
  }

  /** Normalising twice changes nothing. */
  lemma NormalizeWhitespaceIdempotent(s: string)
    ensures NormalizeWhitespace(NormalizeWhitespace(s)) == NormalizeWhitespace(s)
  {
    NormalizeWhitespaceNormalized(s);
    NormalizeWhitespaceFixesNormalized(NormalizeWhitespace(s));
  }

  /** The characters of `s` that are not whitespace, in order. */
  function RemoveWs(s: string): (r: string)
    ensures |r| <= |s|
    ensures forall i :: 0 <= i < |r| ==> !IsWs(r[i])
  {
    if s == [] then []
    else if IsWs(s[0]) then RemoveWs(s[1..])
    else [s[0]] + RemoveWs(s[1..])
  }

  lemma {:induction false} RemoveWsConcat(a: string, b: string)
    ensures RemoveWs(a + b) == RemoveWs(a) + RemoveWs(b)
    decreases |a|
  {
    if a != [] {
      assert (a + b)[1..] == a[1..] + b;
      RemoveWsConcat(a[1..], b);
    } else {
      assert a + b == b;
    }
  }

  lemma {:induction false} RemoveWsAllWs(s: string)
    requires AllWs(s)
    ensures RemoveWs(s) == []
    decreases |s|
  {
    if s != [] {
      assert AllWs(s[1..]);
      RemoveWsAllWs(s[1..]);
    }
  }

  lemma RemoveWsTrim(s: string)
    ensures RemoveWs(Trim(s)) == RemoveWs(s)
  {
    var a, b := TrimSlice(s);
    assert s == s[..a] + s[a..b] + s[b..];
    RemoveWsConcat(s[..a] + s[a..b], s[b..]);
    RemoveWsConcat(s[..a], s[a..b]);
    RemoveWsAllWs(s[..a]);
    RemoveWsAllWs(s[b..]);
  }

  lemma {:induction false} RemoveWsCollapse(s: string)
    ensures RemoveWs(CollapseWs(s)) == RemoveWs(s)
    decreases |s|
  {
    if s == [] {
    } else if IsWs(s[0]) {
      var k := SkipWs(s, 0);
      assert s == s[..k] + s[k..];
      assert forall j :: 0 <= j < k ==> s[..k][j] == s[j];
      RemoveWsConcat(s[..k], s[k..]);
      RemoveWsAllWs(s[..k]);
      RemoveWsCollapse(s[k..]);
      RemoveWsConcat(" ", CollapseWs(s[k..]));
    } else {
      RemoveWsCollapse(s[1..]);
      RemoveWsConcat([s[0]], CollapseWs(s[1..]));
    }
  }

  /** The normaliser only changes whitespace: every other character survives, in order. */
  lemma NormalizeWhitespacePreservesText(s: string)
    ensures RemoveWs(NormalizeWhitespace(s)) == RemoveWs(s)
  {
    RemoveWsTrim(CollapseWs(s));
    RemoveWsCollapse(s);
  }

  lemma {:induction false} RemoveWsEmpty(s: string)
    ensures RemoveWs(s) == [] <==> AllWs(s)
    decreases |s|
  {
    if s != [] {
      RemoveWsEmpty(s[1..]);
      assert AllWs(s) <==> IsWs(s[0]) && AllWs(s[1..]);
    }
  }

  /** Text normalises to the empty string exactly when it is blank. */
  lemma NormalizeWhitespaceEmpty(s: string)
    ensures NormalizeWhitespace(s) == [] <==> AllWs(s)
  {
    NormalizeWhitespacePreservesText(s);
    RemoveWsEmpty(s);
    RemoveWsEmpty(NormalizeWhitespace(s));
    NormalizeWhitespaceNormalized(s);
    var n := NormalizeWhitespace(s);
    if n != [] { assert !IsWs(n[0]); assert !AllWs(n); }
  }

  /** `s.startsWith(p)`. */
  predicate StartsWith(s: string, p: string) {
    |p| <= |s| && s[..|p|] == p
  }

  /** `s.endsWith(p)`. */
  predicate EndsWith(s: string, p: string) {
    |p| <= |s| && s[|s| - |p|..] == p
  }

  /** Trimming a string that does not begin with whitespace keeps its start. */
  lemma TrimKeepsStart(s: string)
    requires s != [] && !IsWs(s[0])
    ensures StartsWith(s, Trim(s))
  {
    assert SkipWs(s, 0) == 0;
  }

  /** Trimming a string that does not end with whitespace keeps its end. */
  lemma TrimKeepsEnd(s: string)
    requires s != [] && !IsWs(s[|s| - 1])
    ensures EndsWith(s, Trim(s))
  {
    assert SkipWsBack(s, |s|) == |s|;
  }

  /** `s.includes(t)`. */
  predicate Contains(s: string, t: string)
    decreases |s|
  {
    StartsWith(s, t) || (s != [] && Contains(s[1..], t))
  }

  lemma {:induction false} ContainsAt(s: string, t: string, i: nat)
    requires i + |t| <= |s| && s[i..i + |t|] == t
    ensures Contains(s, t)
    decreases i
  {
    if i > 0 {
      assert s[1..][i - 1..i - 1 + |t|] == s[i..i + |t|];
      ContainsAt(s[1..], t, i - 1);
    }
  }

  lemma {:induction false} ContainsWitness(s: string, t: string) returns (i: nat)
    requires Contains(s, t)
    ensures i + |t| <= |s| && s[i..i + |t|] == t
    decreases |s|
  {
    if StartsWith(s, t) {
      i := 0;
    } else {
      var j := ContainsWitness(s[1..], t);
      i := j + 1;
      assert s[i..i + |t|] == s[1..][j..j + |t|];
    }
  }

  /** `s.lastIndexOf(c)` for a one-character needle: the last position of `c`, or -1. */
  function LastIndexOf(s: string, c: char): (r: int)
    ensures -1 <= r < |s|
    ensures r >= 0 ==> s[r] == c
    ensures forall i :: r < i < |s| ==> s[i] != c
  {
    if s == [] then -1
    else if s[|s| - 1] == c then |s| - 1
    else LastIndexOf(s[..|s| - 1], c)
  }

  /** ASCII lower-casing of one character. */
  function LowerChar(c: char): char {
    if 'A' <= c <= 'Z' then (c as int + 32) as char else c
  }

  /** `toLowerCase()`, restricted to the ASCII letters. */
  function Lower(s: string): (r: string)
    ensures |r| == |s|
    ensures forall i :: 0 <= i < |s| ==> r[i] == LowerChar(s[i])
  {
    seq(|s|, i requires 0 <= i < |s| => LowerChar(s[i]))
  }
}
