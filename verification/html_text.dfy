/** The character-level passes of `normalizeHtmlText`, which both HTML
    cleaners run on the text of every paragraph: a character map, the
    whitespace normaliser, and four replaces that tighten whitespace around
    punctuation. */
module HtmlText {
  import opened Text
  import Seqs

  /** The two copies of `normalizeHtmlText` differ only in their character
      map: the node-based converter also deletes U+FFFD and turns control
      characters into spaces. */
  datatype Variant = SpanCleaner | NodeCleaner

  predicate IsZeroWidth(c: char) {
    c == '\U{AD}' || ('\U{200B}' <= c <= '\U{200D}') || c == '\U{FEFF}'
  }

  /** `[\u0000-\u001F\u007F]`. */
  predicate IsControl(c: char) { c <= '\U{1F}' || c == '\U{7F}' }

  /** A character the character map leaves as it is. */
  predicate Untouched(v: Variant, c: char) {
    c != '\U{A0}' && !IsZeroWidth(c)
    && (v == NodeCleaner ==> c != '\U{FFFD}' && !IsControl(c))
  }

  /** What the chain of single-character replaces does to one character.
      The replaced sets are disjoint and each produces a space or nothing,
      so the chain acts character by character. */
  function MapChar(v: Variant, c: char): (r: string)
    ensures |r| <= 1
    ensures forall i :: 0 <= i < |r| ==> Untouched(v, r[i])
    ensures Untouched(v, c) ==> r == [c]
    ensures c == '\U{A0}' || (v == NodeCleaner && IsControl(c)) ==> r == " "
    ensures IsZeroWidth(c) || (v == NodeCleaner && c == '\U{FFFD}') ==> r == []
  {
    if c == '\U{A0}' then " "
    else if IsZeroWidth(c) then []
    else if v == NodeCleaner && c == '\U{FFFD}' then []
    else if v == NodeCleaner && IsControl(c) then " "
    else [c]
  }

  predicate AllUntouched(v: Variant, s: string) {
    forall i :: 0 <= i < |s| ==> Untouched(v, s[i])
  }

  /** The character map applied to a whole string. */
  function MapChars(v: Variant, s: string): (r: string)
    ensures |r| <= |s|
    ensures AllUntouched(v, r)
  {
    if s == [] then []
    else MapChars(v, s[..|s| - 1]) + MapChar(v, s[|s| - 1])
  }

  /** The map works character by character: mapping two pieces laid end to
      end gives the two mapped pieces, in the same order. With the
      single-character case this says that `MapChars` is `MapChar` applied
      to every character in turn. */
  lemma {:induction false} MapCharsConcat(v: Variant, a: string, b: string)
    ensures MapChars(v, a + b) == MapChars(v, a) + MapChars(v, b)
    decreases |b|
  {
    if b == [] {
      assert a + b == a;
    } else {
      var init, c := b[..|b| - 1], b[|b| - 1];
      var ab := a + b;
      assert ab[..|ab| - 1] == a + init && ab[|ab| - 1] == c;
      calc {
        MapChars(v, ab);
        MapChars(v, a + init) + MapChar(v, c);
        { MapCharsConcat(v, a, init); }
        (MapChars(v, a) + MapChars(v, init)) + MapChar(v, c);
        { Seqs.AppendAssoc(MapChars(v, a), MapChars(v, init), MapChar(v, c)); }
        MapChars(v, a) + (MapChars(v, init) + MapChar(v, c));
        MapChars(v, a) + MapChars(v, b);
      }
    }
  }

  /** On a single character the map is `MapChar`. */
  lemma MapCharsOne(v: Variant, c: char)
    ensures MapChars(v, [c]) == MapChar(v, c)
  {
    assert [c][..0] == [];
  }

  /** The map changes nothing in a string it has nothing to do to; in
      particular applying it twice is the same as applying it once. */
  lemma {:induction false} MapCharsFixesUntouched(v: Variant, s: string)
    requires AllUntouched(v, s)
    ensures MapChars(v, s) == s
    decreases |s|
  {
    if s != [] {
      MapCharsFixesUntouched(v, s[..|s| - 1]);
      assert s == s[..|s| - 1] + [s[|s| - 1]];
    }
  }

  lemma MapCharsIdempotent(v: Variant, s: string)
    ensures MapChars(v, MapChars(v, s)) == MapChars(v, s)
  {
    MapCharsFixesUntouched(v, MapChars(v, s));
  }

  /** `[,.;:!?]`. */
  predicate IsPunct(c: char) {
    c == ',' || c == '.' || c == ';' || c == ':' || c == '!' || c == '?'
  }

  /** `[([{]`. */
  predicate IsOpener(c: char) { c == '(' || c == '[' || c == '{' }

  /** `[)\]}]`. */
  predicate IsCloser(c: char) { c == ')' || c == ']' || c == '}' }

  /** `[â€™']`: the source spells a right single quote in mojibake, so the
      class is four separate characters. */
  predicate IsApos(c: char) {
    c == '\U{E2}' || c == '\U{20AC}' || c == '\U{2122}' || c == '\''
  }

  /** The two classes a whitespace run is deleted in front of. */
  datatype Mark = Punct | Closer

  predicate Marks(m: Mark, c: char) {
    match m
    case Punct => IsPunct(c)
    case Closer => IsCloser(c)
  }

  /** Position `i` holds whitespace and position `i + 1` a character of class `m`. */
  predicate WsThenMark(m: Mark, s: string, i: nat)
    requires i + 1 < |s|
  {
    IsWs(s[i]) && Marks(m, s[i + 1])
  }

  /** Position `i` holds an opening bracket and position `i + 1` whitespace. */
  predicate OpenerThenWs(s: string, i: nat)
    requires i + 1 < |s|
  {
    IsOpener(s[i]) && IsWs(s[i + 1])
  }

  /** Positions `i`, `i + 1`, `i + 2` hold an apostrophe, whitespace and a
      lower-case letter. */
  predicate AposWsLower(s: string, i: nat)
    requires i + 2 < |s|
  {
    IsApos(s[i]) && IsWs(s[i + 1]) && IsLower(s[i + 2])
  }

  /** No whitespace character stands right before a character of class `m`. */
  predicate NoWsBefore(m: Mark, s: string) {
    forall i :: 0 <= i < |s| - 1 ==> !WsThenMark(m, s, i)
  }

  /** No whitespace character stands right after an opening bracket. */
  predicate NoWsAfterOpener(s: string) {
    forall i :: 0 <= i < |s| - 1 ==> !OpenerThenWs(s, i)
  }

  /** No apostrophe, single whitespace character, lower-case letter in a row. */
  predicate NoWsAposLower(s: string) {
    forall i :: 0 <= i < |s| - 2 ==> !AposWsLower(s, i)
  }

  /** Splitting at the end of a leading whitespace run leaves the text of
      the rest. */
  lemma RemoveWsSplit(s: string, k: nat)
    requires k <= |s| && forall j :: 0 <= j < k ==> IsWs(s[j])
    ensures RemoveWs(s[..k]) == []
    ensures RemoveWs(s) == RemoveWs(s[k..])
  {
    var p, q := s[..k], s[k..];
    assert AllWs(p) by {
      forall j | 0 <= j < |p| ensures IsWs(p[j]) { assert p[j] == s[j]; }
    }
    RemoveWsAllWs(p);
    assert p + q == s;
    RemoveWsConcat(p, q);
  }

  /** `replace(/\s+([,.;:!?])/g, "$1")` for `Punct` and
      `replace(/\s+([)\]}])/g, "$1")` for `Closer`: a maximal whitespace run
      is deleted when a character of the class follows it, and kept
      otherwise. */
  function DropWsBefore(m: Mark, s: string): (r: string)
    ensures |r| <= |s|
    ensures RemoveWs(r) == RemoveWs(s)
    ensures s != [] && !IsWs(s[0]) ==> r != [] && r[0] == s[0]
    decreases |s|
  {
    if s == [] then []
    else if IsWs(s[0]) then
      var k := SkipWs(s, 0);
      var rest := DropWsBefore(m, s[k..]);
      RemoveWsSplit(s, k);
      if k < |s| && Marks(m, s[k]) then rest
      else
        RemoveWsConcat(s[..k], rest);
        s[..k] + rest
    else
      RemoveWsConcat([s[0]], DropWsBefore(m, s[1..]));
      [s[0]] + DropWsBefore(m, s[1..])
  }

  /** `replace(/([([{])\s+/g, "$1")`: the whitespace run after an opening
      bracket is deleted. */
  function DropWsAfterOpener(s: string): (r: string)
    ensures |r| <= |s|
    ensures RemoveWs(r) == RemoveWs(s)
    ensures s != [] ==> r != [] && r[0] == s[0]
    decreases |s|
  {
    if s == [] then []
    else
      var t := if IsOpener(s[0]) then TrimStart(s[1..]) else s[1..];
      RemoveWsSplit(s[1..], |s[1..]| - |t|);
      RemoveWsConcat([s[0]], DropWsAfterOpener(t));
      [s[0]] + DropWsAfterOpener(t)
  }

  /** An apostrophe, a whitespace run, then a lower-case letter: where the
      apostrophe replace matches; the result is the letter's index. */
  function AposMatch(s: string): (k: nat)
    requires s != []
    ensures k == 0 || (1 < k < |s| && IsApos(s[0]) && IsLower(s[k]))
    ensures k > 0 ==> forall j :: 1 <= j < k ==> IsWs(s[j])
    ensures k == 0 && IsApos(s[0]) && 1 < |s| && IsWs(s[1]) ==> SkipWs(s, 1) == |s| || !IsLower(s[SkipWs(s, 1)])
  {
    if IsApos(s[0]) && 1 < |s| && IsWs(s[1]) then
      var k := SkipWs(s, 1);
      if k < |s| && IsLower(s[k]) then k else 0
    else 0
  }

  /** `replace(/([â€™'])\s+([a-z])/g, "$1$2")`: the whitespace run between an
      apostrophe and a lower-case letter is deleted. */
  function JoinAposLower(s: string): (r: string)
    ensures |r| <= |s|
    ensures RemoveWs(r) == RemoveWs(s)
    ensures s != [] ==> r != [] && r[0] == s[0]
    decreases |s|
  {
    if s == [] then []
    else
      var k := AposMatch(s);
      if k > 0 then
        var rest := JoinAposLower(s[k + 1..]);
        JoinAposLowerText(s, k, rest);
        [s[0], s[k]] + rest
      else
        RemoveWsConcat([s[0]], JoinAposLower(s[1..]));
        [s[0]] + JoinAposLower(s[1..])
  }

  lemma JoinAposLowerText(s: string, k: nat, rest: string)
    requires 1 < k < |s| && forall j :: 1 <= j < k ==> IsWs(s[j])
    requires !IsWs(s[0]) && !IsWs(s[k])
    requires RemoveWs(rest) == RemoveWs(s[k + 1..])
    ensures RemoveWs([s[0], s[k]] + rest) == RemoveWs(s)
  {
    RemoveWsSplit(s[1..], k - 1);
    assert s[1..][k - 1..] == [s[k]] + s[k + 1..];
    assert s == [s[0]] + s[1..];
    RemoveWsConcat([s[0]], s[1..]);
    RemoveWsConcat([s[k]], s[k + 1..]);
    RemoveWsConcat([s[0], s[k]], rest);
    assert [s[0], s[k]] == [s[0]] + [s[k]];
    RemoveWsConcat([s[0]], [s[k]]);
  }

  // Building the properties up one character at a time.

  lemma ConsNoWsBefore(m: Mark, c: char, t: string)
    requires NoWsBefore(m, t)
    requires t == [] || !(IsWs(c) && Marks(m, t[0]))
    ensures NoWsBefore(m, [c] + t)
  {
    var u := [c] + t;
    forall i | 0 <= i < |u| - 1 ensures !WsThenMark(m, u, i) {
      if i > 0 {
        assert WsThenMark(m, u, i) == WsThenMark(m, t, i - 1);
      }
    }
  }

  lemma ConsNoWsAfterOpener(c: char, t: string)
    requires NoWsAfterOpener(t)
    requires t == [] || !(IsOpener(c) && IsWs(t[0]))
    ensures NoWsAfterOpener([c] + t)
  {
    var u := [c] + t;
    forall i | 0 <= i < |u| - 1 ensures !OpenerThenWs(u, i) {
      if i > 0 {
        assert OpenerThenWs(u, i) == OpenerThenWs(t, i - 1);
      }
    }
  }

  lemma ConsNoWsAposLower(c: char, t: string)
    requires NoWsAposLower(t)
    requires |t| < 2 || !(IsApos(c) && IsWs(t[0]) && IsLower(t[1]))
    ensures NoWsAposLower([c] + t)
  {
    var u := [c] + t;
    forall i | 0 <= i < |u| - 2 ensures !AposWsLower(u, i) {
      if i > 0 {
        assert AposWsLower(u, i) == AposWsLower(t, i - 1);
      }
    }
  }

  /** A whitespace run in front of text that does not start with a
      character of class `m` adds no whitespace before one. */
  lemma {:induction false} WsRunNoWsBefore(m: Mark, w: string, t: string)
    requires AllWs(w) && NoWsBefore(m, t)
    requires w == [] || t == [] || !Marks(m, t[0])
    ensures NoWsBefore(m, w + t)
    decreases |w|
  {
    if w != [] {
      var u := w[1..] + t;
      assert AllWs(w[1..]);
      WsRunNoWsBefore(m, w[1..], t);
      assert w + t == [w[0]] + u;
      assert u != [] ==> u[0] == (if |w| > 1 then w[1] else t[0]);
      ConsNoWsBefore(m, w[0], u);
    } else {
      assert w + t == t;
    }
  }

  /** Nor does it add whitespace after an opening bracket. */
  lemma {:induction false} WsRunNoWsAfterOpener(w: string, t: string)
    requires AllWs(w) && NoWsAfterOpener(t)
    ensures NoWsAfterOpener(w + t)
    decreases |w|
  {
    if w != [] {
      var u := w[1..] + t;
      assert AllWs(w[1..]);
      WsRunNoWsAfterOpener(w[1..], t);
      assert w + t == [w[0]] + u;
      ConsNoWsAfterOpener(w[0], u);
    } else {
      assert w + t == t;
    }
  }

  lemma NoWsBeforeSuffix(m: Mark, s: string, a: nat)
    requires a <= |s| && NoWsBefore(m, s)
    ensures NoWsBefore(m, s[a..])
  {
    var t := s[a..];
    forall i | 0 <= i < |t| - 1 ensures !WsThenMark(m, t, i) {
      assert WsThenMark(m, t, i) == WsThenMark(m, s, a + i);
    }
  }

  lemma NoWsAfterOpenerSuffix(s: string, a: nat)
    requires a <= |s| && NoWsAfterOpener(s)
    ensures NoWsAfterOpener(s[a..])
  {
    var t := s[a..];
    forall i | 0 <= i < |t| - 1 ensures !OpenerThenWs(t, i) {
      assert OpenerThenWs(t, i) == OpenerThenWs(s, a + i);
    }
  }

  lemma NoWsAposLowerSuffix(s: string, a: nat)
    requires a <= |s| && NoWsAposLower(s)
    ensures NoWsAposLower(s[a..])
  {
    var t := s[a..];
    forall i | 0 <= i < |t| - 2 ensures !AposWsLower(t, i) {
      assert AposWsLower(t, i) == AposWsLower(s, a + i);
    }
  }

  // Each replace leaves no match behind.

  /** After `DropWsBefore(m, _)` no whitespace precedes a character of class `m`. */
  lemma {:induction false} DropWsBeforeTight(m: Mark, s: string)
    ensures NoWsBefore(m, DropWsBefore(m, s))
    decreases |s|
  {
    if s != [] {
      if IsWs(s[0]) {
        var k := SkipWs(s, 0);
        DropWsBeforeTight(m, s[k..]);
        if !(k < |s| && Marks(m, s[k])) {
          assert AllWs(s[..k]);
          WsRunNoWsBefore(m, s[..k], DropWsBefore(m, s[k..]));
        }
      } else {
        DropWsBeforeTight(m, s[1..]);
        ConsNoWsBefore(m, s[0], DropWsBefore(m, s[1..]));
      }
    }
  }

  /** After `DropWsAfterOpener` no whitespace follows an opening bracket. */
  lemma {:induction false} DropWsAfterOpenerTight(s: string)
    ensures NoWsAfterOpener(DropWsAfterOpener(s))
    decreases |s|
  {
    if s != [] {
      var t := if IsOpener(s[0]) then TrimStart(s[1..]) else s[1..];
      DropWsAfterOpenerTight(t);
      ConsNoWsAfterOpener(s[0], DropWsAfterOpener(t));
    }
  }

  /** After the apostrophe replace, no apostrophe is followed by a single
      whitespace character and a lower-case letter. */
  lemma {:induction false} JoinAposLowerTight(s: string)
    ensures NoWsAposLower(JoinAposLower(s))
    decreases |s|
  {
    if s != [] {
      var k := AposMatch(s);
      if k > 0 {
        var rest := JoinAposLower(s[k + 1..]);
        JoinAposLowerTight(s[k + 1..]);
        ConsNoWsAposLower(s[k], rest);
        ConsNoWsAposLower(s[0], [s[k]] + rest);
        assert [s[0], s[k]] + rest == [s[0]] + ([s[k]] + rest);
      } else {
        var r' := JoinAposLower(s[1..]);
        JoinAposLowerTight(s[1..]);
        if IsApos(s[0]) && 2 < |s| && IsWs(s[1]) {
          assert AposMatch(s[1..]) == 0;
          assert r' == [s[1]] + JoinAposLower(s[2..]);
          assert r'[1] == s[2];
          if !IsWs(s[2]) {
            assert SkipWs(s, 1) == 2 by { assert SkipWs(s, 2) == 2; }
          }
        }
        ConsNoWsAposLower(s[0], r');
      }
    }
  }

  // What one replace establishes, the later ones keep.

  lemma {:induction false} DropWsAfterOpenerKeeps(m: Mark, s: string)
    requires NoWsBefore(m, s)
    ensures NoWsBefore(m, DropWsAfterOpener(s))
    decreases |s|
  {
    if s != [] {
      var t := if IsOpener(s[0]) then TrimStart(s[1..]) else s[1..];
      NoWsBeforeSuffix(m, s, |s| - |t|);
      assert t == s[|s| - |t|..];
      DropWsAfterOpenerKeeps(m, t);
      if !IsOpener(s[0]) && |s| > 1 {
        assert !WsThenMark(m, s, 0);
      }
      ConsNoWsBefore(m, s[0], DropWsAfterOpener(t));
    }
  }

  /** `DropWsBefore(m, _)` keeps the absence of whitespace before class `m'`
      and after opening brackets. */
  lemma {:induction false} DropWsBeforeKeeps(m: Mark, m': Mark, s: string)
    requires NoWsBefore(m', s) && NoWsAfterOpener(s)
    ensures NoWsBefore(m', DropWsBefore(m, s)) && NoWsAfterOpener(DropWsBefore(m, s))
    decreases |s|
  {
    if s != [] {
      if IsWs(s[0]) {
        var k := SkipWs(s, 0);
        NoWsBeforeSuffix(m', s, k);
        NoWsAfterOpenerSuffix(s, k);
        DropWsBeforeKeeps(m, m', s[k..]);
        if !(k < |s| && Marks(m, s[k])) {
          assert AllWs(s[..k]);
          if k < |s| {
            assert !WsThenMark(m', s, k - 1);
          }
          WsRunNoWsBefore(m', s[..k], DropWsBefore(m, s[k..]));
          WsRunNoWsAfterOpener(s[..k], DropWsBefore(m, s[k..]));
        }
      } else {
        NoWsBeforeSuffix(m', s, 1);
        NoWsAfterOpenerSuffix(s, 1);
        DropWsBeforeKeeps(m, m', s[1..]);
        var r' := DropWsBefore(m, s[1..]);
        if |s| > 1 {
          assert !OpenerThenWs(s, 0);
        }
        ConsNoWsBefore(m', s[0], r');
        ConsNoWsAfterOpener(s[0], r');
      }
    }
  }

  lemma {:induction false} JoinAposLowerKeepsBefore(m: Mark, s: string)
    requires NoWsBefore(m, s)
    ensures NoWsBefore(m, JoinAposLower(s))
    decreases |s|
  {
    if s != [] {
      var k := AposMatch(s);
      var j := if k > 0 then k + 1 else 1;
      NoWsBeforeSuffix(m, s, j);
      JoinAposLowerKeepsBefore(m, s[j..]);
      var rest := JoinAposLower(s[j..]);
      if k > 0 {
        ConsNoWsBefore(m, s[k], rest);
        ConsNoWsBefore(m, s[0], [s[k]] + rest);
        assert [s[0], s[k]] + rest == [s[0]] + ([s[k]] + rest);
      } else {
        if |s| > 1 {
          assert !WsThenMark(m, s, 0);
        }
        ConsNoWsBefore(m, s[0], rest);
      }
    }
  }

  lemma {:induction false} JoinAposLowerKeepsOpener(s: string)
    requires NoWsAfterOpener(s)
    ensures NoWsAfterOpener(JoinAposLower(s))
    decreases |s|
  {
    if s != [] {
      var k := AposMatch(s);
      var j := if k > 0 then k + 1 else 1;
      NoWsAfterOpenerSuffix(s, j);
      JoinAposLowerKeepsOpener(s[j..]);
      var rest := JoinAposLower(s[j..]);
      if k > 0 {
        ConsNoWsAfterOpener(s[k], rest);
        ConsNoWsAfterOpener(s[0], [s[k]] + rest);
        assert [s[0], s[k]] + rest == [s[0]] + ([s[k]] + rest);
      } else {
        if |s| > 1 {
          assert !OpenerThenWs(s, 0);
        }
        ConsNoWsAfterOpener(s[0], rest);
      }
    }
  }

  // On text with nothing to tighten, each replace is the identity.

  lemma {:induction false} DropWsBeforeFixes(m: Mark, s: string)
    requires NoWsBefore(m, s)
    ensures DropWsBefore(m, s) == s
    decreases |s|
  {
    if s != [] {
      if IsWs(s[0]) {
        var k := SkipWs(s, 0);
        if k < |s| {
          assert !WsThenMark(m, s, k - 1);
        }
        NoWsBeforeSuffix(m, s, k);
        DropWsBeforeFixes(m, s[k..]);
        assert s == s[..k] + s[k..];
      } else {
        NoWsBeforeSuffix(m, s, 1);
        DropWsBeforeFixes(m, s[1..]);
        assert s == [s[0]] + s[1..];
      }
    }
  }

  lemma DropWsBeforeIdempotent(m: Mark, s: string)
    ensures DropWsBefore(m, DropWsBefore(m, s)) == DropWsBefore(m, s)
  {
    DropWsBeforeTight(m, s);
    DropWsBeforeFixes(m, DropWsBefore(m, s));
  }

  lemma {:induction false} DropWsAfterOpenerFixes(s: string)
    requires NoWsAfterOpener(s)
    ensures DropWsAfterOpener(s) == s
    decreases |s|
  {
    if s != [] {
      if IsOpener(s[0]) && |s| > 1 {
        assert !OpenerThenWs(s, 0);
        assert SkipWs(s[1..], 0) == 0;
      }
      NoWsAfterOpenerSuffix(s, 1);
      DropWsAfterOpenerFixes(s[1..]);
      assert s == [s[0]] + s[1..];
    }
  }

  lemma DropWsAfterOpenerIdempotent(s: string)
    ensures DropWsAfterOpener(DropWsAfterOpener(s)) == DropWsAfterOpener(s)
  {
    DropWsAfterOpenerTight(s);
    DropWsAfterOpenerFixes(DropWsAfterOpener(s));
  }

  /** On single-spaced text with no apostrophe, space, lower-case letter in a
      row, the apostrophe replace is the identity. */
  lemma {:induction false} JoinAposLowerFixes(s: string)
    requires SingleSpaced(s) && NoWsAposLower(s)
    ensures JoinAposLower(s) == s
    decreases |s|
  {
    if s != [] {
      if IsApos(s[0]) && 1 < |s| && IsWs(s[1]) && 2 < |s| {
        assert s[1] == ' ' && s[2] != ' ';
        assert !AposWsLower(s, 0);
        assert SkipWs(s, 1) == 2 by { assert SkipWs(s, 2) == 2; }
      }
      assert AposMatch(s) == 0;
      SliceSingleSpaced(s, 1, |s|);
      NoWsAposLowerSuffix(s, 1);
      JoinAposLowerFixes(s[1..]);
      assert s == [s[0]] + s[1..];
    }
  }

  // Outside a match each replace keeps the text: where no match is cut in
  // two, the pieces are tightened on their own, and one match is replaced
  // as the pattern says.

  /** Cutting after a character that is not whitespace splits no run. */
  lemma {:induction false} DropWsBeforeConcat(m: Mark, a: string, b: string)
    requires a == [] || !IsWs(a[|a| - 1])
    ensures DropWsBefore(m, a + b) == DropWsBefore(m, a) + DropWsBefore(m, b)
    decreases |a|
  {
    if a == [] {
      assert a + b == b;
    } else if !IsWs(a[0]) {
      DropWsBeforeHead(m, a, b);
      DropWsBeforeConcat(m, a[1..], b);
      Seqs.AppendAssoc([a[0]], DropWsBefore(m, a[1..]), DropWsBefore(m, b));
    } else {
      var k, keep := DropWsBeforeLead(m, a, b);
      DropWsBeforeConcat(m, a[k..], b);
      Seqs.AppendAssoc(keep, DropWsBefore(m, a[k..]), DropWsBefore(m, b));
    }
  }

  lemma DropWsBeforeHead(m: Mark, a: string, b: string)
    requires a != [] && !IsWs(a[0])
    ensures DropWsBefore(m, a + b) == [a[0]] + DropWsBefore(m, a[1..] + b)
  {
    var ab := a + b;
    assert ab[0] == a[0] && ab[1..] == a[1..] + b;
  }

  /** The leading run of `a`, which ends inside `a`, is kept or dropped
      alike in `a` and in `a + b`. */
  lemma DropWsBeforeLead(m: Mark, a: string, b: string) returns (k: nat, keep: string)
    requires a != [] && IsWs(a[0]) && !IsWs(a[|a| - 1])
    ensures 0 < k < |a|
    ensures DropWsBefore(m, a) == keep + DropWsBefore(m, a[k..])
    ensures DropWsBefore(m, a + b) == keep + DropWsBefore(m, a[k..] + b)
  {
    var ab := a + b;
    k := SkipWs(a, 0);
    keep := if Marks(m, a[k]) then [] else a[..k];
    assert forall j :: 0 <= j <= k ==> ab[j] == a[j];
    assert SkipWs(ab, 0) == k;
    assert ab[k..] == a[k..] + b;
    assert ab[..k] == a[..k];
    if Marks(m, a[k]) {
      assert keep + DropWsBefore(m, a[k..]) == DropWsBefore(m, a[k..]);
      assert keep + DropWsBefore(m, a[k..] + b) == DropWsBefore(m, a[k..] + b);
    }
  }

  /** A whitespace run before text that does not start with whitespace is
      deleted when that text starts with a character of class `m`, and
      kept as it is otherwise, at the end of the text included. */
  lemma DropWsBeforeRun(m: Mark, w: string, t: string)
    requires AllWs(w) && (t == [] || !IsWs(t[0]))
    ensures DropWsBefore(m, w + t)
         == (if w != [] && t != [] && Marks(m, t[0]) then [] else w) + DropWsBefore(m, t)
  {
    var s := w + t;
    if w == [] {
      assert s == t;
    } else {
      assert forall j :: 0 <= j < |w| ==> s[j] == w[j];
      assert |w| < |s| ==> s[|w|] == t[0];
      assert SkipWs(s, 0) == |w|;
      assert s[|w|..] == t && s[..|w|] == w;
    }
  }

  /** Cutting where neither side can hold part of an opening bracket and
      the run after it splits no match. */
  lemma {:induction false} DropWsAfterOpenerConcat(a: string, b: string)
    requires a == [] || b == [] || !IsWs(b[0]) || (!IsWs(a[|a| - 1]) && !IsOpener(a[|a| - 1]))
    ensures DropWsAfterOpener(a + b) == DropWsAfterOpener(a) + DropWsAfterOpener(b)
    decreases |a|
  {
    if a == [] {
      assert a + b == b;
    } else if b == [] {
      assert a + b == a;
    } else {
      var t := DropWsAfterOpenerHead(a, b);
      if t == [] {
        assert t + b == b;
        assert DropWsAfterOpener(t) == [];
      } else {
        DropWsAfterOpenerConcat(t, b);
        Seqs.AppendAssoc([a[0]], DropWsAfterOpener(t), DropWsAfterOpener(b));
      }
    }
  }

  /** The first step on `a` and on `a + b`: both write `a[0]` and go on
      with the same rest `t` of `a`, followed by `b`; when nothing of `a`
      is left, the step on `a + b` goes on with `b` alone. */
  lemma DropWsAfterOpenerHead(a: string, b: string) returns (t: string)
    requires a != [] && b != []
    requires !IsWs(b[0]) || (!IsWs(a[|a| - 1]) && !IsOpener(a[|a| - 1]))
    ensures |t| < |a| && (t == [] || t[|t| - 1] == a[|a| - 1])
    ensures DropWsAfterOpener(a) == [a[0]] + DropWsAfterOpener(t)
    ensures DropWsAfterOpener(a + b) == [a[0]] + DropWsAfterOpener(t + b)
  {
    var ab := a + b;
    assert ab[0] == a[0] && ab[1..] == a[1..] + b;
    if IsOpener(a[0]) {
      t := TrimStart(a[1..]);
      TrimStartConcat(a[1..], b);
      if AllWs(a[1..]) {
        TrimStartConcat(a[1..], []);
        Seqs.AppendEmpty([], a[1..]);
        Seqs.AppendEmpty(t, b);
      }
    } else {
      t := a[1..];
    }
  }

  /** An opening bracket followed by a whitespace run becomes the bracket
      alone; any other character keeps the run that follows it. */
  lemma DropWsAfterOpenerRun(o: char, w: string)
    requires AllWs(w)
    ensures DropWsAfterOpener([o] + w) == if IsOpener(o) then [o] else [o] + w
  {
    var s := [o] + w;
    assert s[0] == o && s[1..] == w;
    if IsOpener(o) {
      TrimStartConcat(w, []);
      assert w + [] == w;
    } else {
      DropWsAfterOpenerFixes(w);
    }
  }

  /** A match of the apostrophe replace in `a + b` lies in `a` exactly when
      it is a match of `a`, under the condition of `JoinAposLowerConcat`. */
  lemma AposMatchPrefix(a: string, b: string)
    requires a != [] && b != []
    requires (!IsWs(a[|a| - 1]) && !IsApos(a[|a| - 1])) || (!IsWs(b[0]) && !IsLower(b[0]))
    ensures AposMatch(a + b) == AposMatch(a)
  {
    var s := a + b;
    assert forall j :: 0 <= j < |a| ==> s[j] == a[j];
    assert s[|a|] == b[0];
    if IsApos(a[0]) && 1 < |a| && IsWs(a[1]) {
      var k := SkipWs(a, 1);
      if k < |a| {
        assert SkipWs(s, 1) == k;
      } else {
        assert IsWs(a[|a| - 1]);
        assert SkipWs(s, 1) == |a|;
      }
    }
  }

  /** Cutting where no match of the apostrophe replace is split: after a
      character that is neither whitespace nor an apostrophe, or before one
      that is neither whitespace nor a lower-case letter. */
  lemma {:induction false} JoinAposLowerConcat(a: string, b: string)
    requires a == [] || b == [] || (!IsWs(a[|a| - 1]) && !IsApos(a[|a| - 1]))
                                || (!IsWs(b[0]) && !IsLower(b[0]))
    ensures JoinAposLower(a + b) == JoinAposLower(a) + JoinAposLower(b)
    decreases |a|
  {
    if a == [] {
      assert a + b == b;
    } else if b == [] {
      assert a + b == a;
    } else {
      var n, head := JoinAposLowerHead(a, b);
      var rest := a[n..];
      if n == |a| {
        Seqs.AppendEmpty(rest, b);
        Seqs.AppendEmpty(JoinAposLower(rest), head);
      } else {
        assert rest[|rest| - 1] == a[|a| - 1];
        JoinAposLowerConcat(rest, b);
        Seqs.AppendAssoc(head, JoinAposLower(rest), JoinAposLower(b));
      }
    }
  }

  /** The first step on `a` and on `a + b` writes the same `head` and goes
      on at the same position `n` of `a`. */
  lemma JoinAposLowerHead(a: string, b: string) returns (n: nat, head: string)
    requires a != [] && b != []
    requires (!IsWs(a[|a| - 1]) && !IsApos(a[|a| - 1])) || (!IsWs(b[0]) && !IsLower(b[0]))
    ensures 0 < n <= |a|
    ensures JoinAposLower(a) == head + JoinAposLower(a[n..])
    ensures JoinAposLower(a + b) == head + JoinAposLower(a[n..] + b)
  {
    var s := a + b;
    AposMatchPrefix(a, b);
    var k := AposMatch(a);
    if k > 0 {
      n, head := k + 1, [a[0], a[k]];
      assert s[0] == a[0] && s[k] == a[k];
      assert s[k + 1..] == a[k + 1..] + b;
    } else {
      n, head := 1, [a[0]];
      assert s[0] == a[0] && s[1..] == a[1..] + b;
    }

  }

  /** One match: an apostrophe, a whitespace run and a lower-case letter
      become the apostrophe and the letter. */
  lemma JoinAposLowerJoins(q: char, w: string, c: char)
    requires IsApos(q) && w != [] && AllWs(w) && IsLower(c)
    ensures JoinAposLower([q] + w + [c]) == [q, c]
  {
    var s := [q] + w + [c];
    assert forall j :: 1 <= j <= |w| ==> s[j] == w[j - 1];
    assert s[|w| + 1] == c;
    assert SkipWs(s, 1) == |w| + 1;
    assert s[|w| + 2..] == [];
  }

  /** Text in which the apostrophe replace matches nowhere is kept as it is. */
  lemma {:induction false} JoinAposLowerNoMatch(s: string)
    requires forall i :: 0 <= i < |s| ==> AposMatch(s[i..]) == 0
    ensures JoinAposLower(s) == s
    decreases |s|
  {
    if s != [] {
      assert s[0..] == s;
      forall i | 0 <= i < |s| - 1 ensures AposMatch(s[1..][i..]) == 0 {
        assert s[1..][i..] == s[i + 1..];
      }
      JoinAposLowerNoMatch(s[1..]);
      assert s == [s[0]] + s[1..];
    }
  }

  /** The four tightening replaces in their order. What one establishes
      survives the later ones, so the result has no whitespace before
      `, . ; : ! ?`, after `( [ {` or before `) ] }`, and no apostrophe,
      whitespace, lower-case letter in a row; the other characters are
      kept in order. */
  function Tighten(s: string): (r: string)
    ensures NoWsBefore(Punct, r) && NoWsAfterOpener(r) && NoWsBefore(Closer, r)
    ensures NoWsAposLower(r)
    ensures RemoveWs(r) == RemoveWs(s)
  {
    var a := DropWsBefore(Punct, s);
    DropWsBeforeTight(Punct, s);
    var b := DropWsAfterOpener(a);
    DropWsAfterOpenerTight(a);
    DropWsAfterOpenerKeeps(Punct, a);
    var c := DropWsBefore(Closer, b);
    DropWsBeforeTight(Closer, b);
    DropWsBeforeKeeps(Closer, Punct, b);
    JoinAposLowerKeepsBefore(Punct, c);
    JoinAposLowerKeepsBefore(Closer, c);
    JoinAposLowerKeepsOpener(c);
    JoinAposLowerTight(c);
    JoinAposLower(c)
  }

  /** `normalizeHtmlText`. The letter-run heuristics between the tightening
      and the final whitespace pass are the parameter `heuristics`. */
  function NormalizeHtmlText(v: Variant, heuristics: string -> string, s: string): string {
    NormalizeWhitespace(heuristics(Tighten(NormalizeWhitespace(MapChars(v, s)))))
  }

  /** Whatever the heuristics do, the result has single spaces and is trimmed. */
  lemma NormalizeHtmlTextNormalized(v: Variant, heuristics: string -> string, s: string)
    ensures Normalized(NormalizeHtmlText(v, heuristics, s))
  {
    NormalizeWhitespaceNormalized(heuristics(Tighten(NormalizeWhitespace(MapChars(v, s)))));
  }

  /** With the heuristics switched off, the cleaner only changes whitespace
      around what the character map produced, so no character it maps
      away reaches the output. */
  lemma NormalizeHtmlTextKeepsText(v: Variant, s: string)
    ensures var r := NormalizeHtmlText(v, t => t, s);
      RemoveWs(r) == RemoveWs(MapChars(v, s)) && AllUntouched(v, r)
  {
    var m := MapChars(v, s);
    var n := NormalizeWhitespace(m);
    var r := NormalizeHtmlText(v, t => t, s);
    assert r == NormalizeWhitespace(Tighten(n));
    NormalizeWhitespacePreservesText(m);
    NormalizeWhitespacePreservesText(Tighten(n));
    NormalizeWhitespaceNormalized(Tighten(n));
    UntouchedByText(v, r, m);
  }

  /** Single-spaced text with the same non-whitespace characters as text the
      map has produced has only characters the map leaves alone. */
  lemma UntouchedByText(v: Variant, r: string, m: string)
    requires SingleSpaced(r) && AllUntouched(v, m) && RemoveWs(r) == RemoveWs(m)
    ensures AllUntouched(v, r)
  {
    forall i | 0 <= i < |r| ensures Untouched(v, r[i]) {
      if !IsWs(r[i]) {
        RemoveWsHas(r, i);
        var j := RemoveWsFrom(m, r[i]);
      }
    }
  }

  /** Every character of `s` that is not whitespace is in `RemoveWs(s)`. */
  lemma {:induction false} RemoveWsHas(s: string, i: nat)
    requires i < |s| && !IsWs(s[i])
    ensures s[i] in RemoveWs(s)
    decreases i
  {
    if i > 0 {
      RemoveWsHas(s[1..], i - 1);
    }
  }

  /** Every character of `RemoveWs(s)` comes from `s`. */
  lemma {:induction false} RemoveWsFrom(s: string, c: char) returns (j: nat)
    requires c in RemoveWs(s)
    ensures j < |s| && s[j] == c
    decreases |s|
  {
    if s[0] == c {
      j := 0;
    } else {
      var j' := RemoveWsFrom(s[1..], c);
      j := j' + 1;
    }
  }
}
