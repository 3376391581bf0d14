/*
 * The CORS middleware of middlewares/cors.ts: the allowed origins are read
 * from a comma-separated setting, and each response gets the CORS headers
 * before a preflight is answered or the request is passed on.
 */
module Cors {
  import opened Wrappers
  import opened Text
  import opened Seqs

  const DEFAULT_ALLOWED_HEADERS: string := "Authorization, Content-Type, ngrok-skip-browser-warning"
  const DEFAULT_ALLOWED_METHODS: string := "GET, POST, PUT, PATCH, DELETE, OPTIONS"
  /** The origin allowed when nothing is configured. */
  const DEFAULT_ORIGIN: string := "http://localhost:3000"

  // Splitting on a separator.

  /** The first position of `c` in `s`, or -1. */
  function FirstIndex(s: string, c: char): (r: int)
    ensures -1 <= r < |s|
    ensures r == -1 <==> c !in s
    ensures 0 <= r ==> s[r] == c && c !in s[..r]
  {
    if s == [] then -1
    else if s[0] == c then 0
    else
      var r := FirstIndex(s[1..], c);
      assert r >= 0 ==> s[..r + 1] == [s[0]] + s[1..][..r];
      if r < 0 then -1 else r + 1
  }

  /** `s.split(c)`: the pieces between the separators, at least one. */
  function Split(s: string, c: char): (parts: seq<string>)
    ensures |parts| >= 1
    ensures forall i :: 0 <= i < |parts| ==> c !in parts[i]
    decreases |s|
  {
    var k := FirstIndex(s, c);
    if k < 0 then [s] else [s[..k]] + Split(s[k + 1..], c)
  }

  /** `parts.join(c)`. */
  function JoinWith(parts: seq<string>, c: char): string
    decreases |parts|
  {
    if parts == [] then []
    else if |parts| == 1 then parts[0]
    else parts[0] + [c] + JoinWith(parts[1..], c)
  }

  /** Joining the pieces back gives the string that was split. */
  lemma {:induction false} SplitJoin(s: string, c: char)
    ensures JoinWith(Split(s, c), c) == s
    decreases |s|
  {
    var k := FirstIndex(s, c);
    if k >= 0 {
      var rest := Split(s[k + 1..], c);
      SplitJoin(s[k + 1..], c);
      assert ([s[..k]] + rest)[1..] == rest;
      assert s == s[..k] + [c] + s[k + 1..];
    }
  }

  /** Splitting a join of separator-free pieces gives the pieces back. */
  lemma {:induction false} JoinSplit(parts: seq<string>, c: char)
    requires |parts| >= 1
    requires forall i :: 0 <= i < |parts| ==> c !in parts[i]
    ensures Split(JoinWith(parts, c), c) == parts
    decreases |parts|
  {
    if |parts| > 1 {
      var p := parts[0];
      var rest := JoinWith(parts[1..], c);
      var s := p + [c] + rest;
      var k := FirstIndex(s, c);
      assert s[|p|] == c && s[..|p|] == p;
      assert forall j :: 0 <= j < |p| ==> s[j] == p[j];
      assert k == |p|;
      assert s[k + 1..] == rest;
      JoinSplit(parts[1..], c);
      assert parts == [p] + parts[1..];
    } else {
      assert FirstIndex(parts[0], c) == -1;
    }
  }

  // The allowed origins.

  /** `"*"`, or a list of origins. */
  datatype Origins = Any | List(origins: seq<string>)

  /** The entries of a comma-separated list: each piece trimmed, the empty
      ones dropped. */
  function Entries(t: string): (r: seq<string>)
  {
    Filter((e: string) => e != [], MapSeq(Trim, Split(t, ',')))
  }

  /** A trimmed piece holds no comma: trimming only drops characters. */
  lemma TrimNoComma(s: string)
    requires ',' !in s
    ensures ',' !in Trim(s)
  {
    var a, b := TrimSlice(s);
    forall j | 0 <= j < b - a
      ensures s[a..b][j] != ','
    {
      assert s[a..b][j] == s[a + j];
    }
  }

  /** An entry worth listing: non-empty, no comma, no whitespace at either
      end. */
  predicate Clean(e: string) {
    e != [] && ',' !in e && !IsWs(e[0]) && !IsWs(e[|e| - 1])
  }

  /** The entries are the trimmed pieces, and every non-empty one of them. */
  lemma EntriesExact(t: string)
    ensures var parts := Split(t, ',');
            forall i :: 0 <= i < |parts| ==> (Trim(parts[i]) in Entries(t) <==> Trim(parts[i]) != [])
    ensures forall e :: e in Entries(t) ==> e in MapSeq(Trim, Split(t, ','))
  {
    var parts := Split(t, ',');
    var trimmed := MapSeq(Trim, parts);
    FilterExact((e: string) => e != [], trimmed);
    forall i | 0 <= i < |parts|
      ensures Trim(parts[i]) in trimmed
    {
      assert trimmed[i] == Trim(parts[i]);
    }
  }

  /** Every entry is clean. */
  lemma EntriesClean(t: string)
    ensures forall e :: e in Entries(t) ==> Clean(e)
  {
    var parts := Split(t, ',');
    var trimmed := MapSeq(Trim, parts);
    FilterExact((e: string) => e != [], trimmed);
    forall e | e in Entries(t)
      ensures Clean(e)
    {
      var i :| 0 <= i < |trimmed| && trimmed[i] == e;
      TrimNoComma(parts[i]);
    }
  }

  /** `parseAllowedOrigins(process.env.CORS_ORIGIN)`: an unset or empty
      setting allows the default origin, a setting that trims to "*" allows
      every origin, anything else is a comma-separated list. */
  function ParseAllowedOrigins(raw: Option<string>): (r: Origins)
    ensures raw.None? || raw == Some([]) ==> r == List([DEFAULT_ORIGIN])
    ensures r.Any? <==> raw.Some? && raw.value != [] && Trim(raw.value) == "*"
    ensures raw.Some? && raw.value != [] && Trim(raw.value) != "*" ==> r == List(Entries(Trim(raw.value)))
  {
    if raw.None? || raw.value == [] then List([DEFAULT_ORIGIN])
    else
      var trimmed := Trim(raw.value);
      if trimmed == "*" then Any else List(Entries(trimmed))
  }

  /** Every listed origin is a non-empty entry without commas or surrounding
      whitespace. */
  lemma ParseListed(raw: Option<string>)
    ensures var r := ParseAllowedOrigins(raw);
            r.List? ==> forall e :: e in r.origins ==> Clean(e)
  {
    if raw.Some? && raw.value != [] && Trim(raw.value) != "*" {
      EntriesClean(Trim(raw.value));
    } else {
      assert Clean(DEFAULT_ORIGIN);
    }
  }

  /** Writing a list of clean entries out with commas and reading it back
      gives the list. */
  lemma EntriesJoin(entries: seq<string>)
    requires |entries| >= 1
    requires forall i :: 0 <= i < |entries| ==> Clean(entries[i])
    ensures Entries(JoinWith(entries, ',')) == entries
  {
    assert forall i :: 0 <= i < |entries| ==> ',' !in entries[i] by {
      forall i | 0 <= i < |entries| ensures ',' !in entries[i] { assert Clean(entries[i]); }
    }
    JoinSplit(entries, ',');
    CleanEntriesKept(entries);
  }

  /** Trimming clean entries and dropping the empty ones keeps them all. */
  lemma CleanEntriesKept(entries: seq<string>)
    requires forall i :: 0 <= i < |entries| ==> Clean(entries[i])
    ensures Filter((e: string) => e != [], MapSeq(Trim, entries)) == entries
  {
    var trimmed := MapSeq(Trim, entries);
    forall i | 0 <= i < |entries|
      ensures trimmed[i] == entries[i] && entries[i] != []
    {
      assert Clean(entries[i]);
      TrimNoEndWs(entries[i]);
    }
    assert trimmed == entries;
    FilterAll((e: string) => e != [], entries);
  }

  /** A join of non-empty pieces starts with the first piece's first
      character and ends with the last piece's last character. */
  lemma {:induction false} JoinEnds(parts: seq<string>, c: char)
    requires |parts| >= 1 && forall i :: 0 <= i < |parts| ==> parts[i] != []
    ensures var s := JoinWith(parts, c);
            s != [] && s[0] == parts[0][0] && s[|s| - 1] == parts[|parts| - 1][|parts[|parts| - 1]| - 1]
    ensures |parts| > 1 ==> |JoinWith(parts, c)| > 1
    decreases |parts|
  {
    if |parts| > 1 {
      JoinEnds(parts[1..], c);
    }
  }

  /** A setting written as a comma-separated list of clean origins, other
      than the single entry "*", is read back as exactly that list. */
  lemma ParseWritten(entries: seq<string>)
    requires |entries| >= 1 && entries != ["*"]
    requires forall i :: 0 <= i < |entries| ==> Clean(entries[i])
    ensures ParseAllowedOrigins(Some(JoinWith(entries, ','))) == List(entries)
  {
    JoinClean(entries);
    EntriesJoin(entries);
  }

  /** A join of clean entries is non-empty and already trimmed, and it is
      "*" only for the single entry "*". */
  lemma JoinClean(entries: seq<string>)
    requires |entries| >= 1 && entries != ["*"]
    requires forall i :: 0 <= i < |entries| ==> Clean(entries[i])
    ensures var s := JoinWith(entries, ',');
            s != [] && Trim(s) == s && s != "*"
  {
    var s := JoinWith(entries, ',');
    forall i | 0 <= i < |entries|
      ensures entries[i] != []
    {
      assert Clean(entries[i]);
    }
    assert Clean(entries[0]) && Clean(entries[|entries| - 1]);
    JoinEnds(entries, ',');
    TrimNoEndWs(s);
  }

  // The headers.

  /** The Allow-Origin value: "*" under the wildcard, else the request's
      origin when it is present, non-empty and listed, else none. */
  function AllowOrigin(allowed: Origins, origin: Option<string>): (r: Option<string>)
    ensures r == Some("*") <==> allowed.Any? || (origin == Some("*") && "*" in allowed.origins)
    ensures r.Some? && allowed.List? ==> origin == r && r.value != [] && r.value in allowed.origins
    ensures allowed.List? && origin.Some? && origin.value != [] && origin.value in allowed.origins ==> r == origin
  {
    if allowed.Any? then Some("*")
    else if origin.Some? && origin.value != [] && origin.value in allowed.origins then origin
    else None
  }

  /** An express response: its headers, its status code, and whether it
      was ended. */
  class Response {
    var headers: map<string, string>
    var statusCode: int
    var ended: bool

    constructor()
      ensures headers == map[] && statusCode == 200 && !ended
    {
      headers := map[];
      statusCode := 200;
      ended := false;
    }

    /** `res.setHeader(name, value)`. */
    method SetHeader(name: string, value: string)
      modifies this
      ensures headers == old(headers)[name := value]
      ensures statusCode == old(statusCode) && ended == old(ended)
    {
      headers := headers[name := value];
    }

    /** `res.status(204).end()`. */
    method EndWith(code: int)
      modifies this
      ensures statusCode == code && ended && headers == old(headers)
    {
      statusCode := code;
      ended := true;
    }
  }

  /** The headers `corsMiddleware` sets, by name: Allow-Origin when
      `AllowOrigin` gives a value, with `Vary: Origin` when that value is an
      echoed origin; Allow-Methods; Allow-Headers echoing the request's
      header, else the default list. */
  function CorsHeaders(allowed: Origins, origin: Option<string>, requestHeaders: Option<string>): map<string, string>
  {
    var echoed :=
      if allowed.Any? then map["Access-Control-Allow-Origin" := "*"]
      else if origin.Some? && origin.value != [] && origin.value in allowed.origins
      then map["Access-Control-Allow-Origin" := origin.value, "Vary" := "Origin"]
      else map[];
    echoed["Access-Control-Allow-Methods" := DEFAULT_ALLOWED_METHODS]
          ["Access-Control-Allow-Headers" := requestHeaders.GetOr(DEFAULT_ALLOWED_HEADERS)]
  }

  /** What the headers say: only CORS headers are set; Allow-Origin is set
      exactly when `AllowOrigin` gives a value, and to that value; `Vary` is
      set exactly when a listed origin is echoed; the methods are always the
      default list; the allowed headers echo the request's, else the
      default list. */
  lemma CorsHeadersMeaning(allowed: Origins, origin: Option<string>, requestHeaders: Option<string>)
    ensures var h := CorsHeaders(allowed, origin, requestHeaders);
            var allow := AllowOrigin(allowed, origin);
            && h.Keys <= CORS_HEADERS
            && ("Access-Control-Allow-Origin" in h <==> allow.Some?)
            && (allow.Some? ==> h["Access-Control-Allow-Origin"] == allow.value)
            && ("Vary" in h <==> allow.Some? && allowed.List?)
            && ("Vary" in h ==> h["Vary"] == "Origin")
            && "Access-Control-Allow-Methods" in h && h["Access-Control-Allow-Methods"] == DEFAULT_ALLOWED_METHODS
            && "Access-Control-Allow-Headers" in h
            && h["Access-Control-Allow-Headers"] == requestHeaders.GetOr(DEFAULT_ALLOWED_HEADERS)
  {
  }

  /** `corsMiddleware(req, res, next)` with the setting `corsOrigin`, the
      request's method, `Origin` header and `Access-Control-Request-Headers`
      header: the CORS headers are laid over the response's headers; a
      preflight is answered with 204 and ends the response without calling
      `next`; any other request calls `next` and leaves the status alone.
      `nextCalled` says whether `next()` ran. */
  method CorsMiddleware(corsOrigin: Option<string>, requestMethod: string, origin: Option<string>,
                        requestHeaders: Option<string>, res: Response)
    returns (nextCalled: bool)
    modifies res
    ensures res.headers == old(res.headers) + CorsHeaders(ParseAllowedOrigins(corsOrigin), origin, requestHeaders)
    ensures nextCalled <==> requestMethod != "OPTIONS"
    ensures !nextCalled ==> res.statusCode == 204 && res.ended
    ensures nextCalled ==> res.statusCode == old(res.statusCode) && res.ended == old(res.ended)
  {
    var allowed := ParseAllowedOrigins(corsOrigin);
    ghost var before := res.headers;
    ghost var laid: map<string, string> := map[];
    assert before + laid == before;
    if allowed.Any? {
      res.SetHeader("Access-Control-Allow-Origin", "*");
      SetOver(before, laid, "Access-Control-Allow-Origin", "*");
      laid := laid["Access-Control-Allow-Origin" := "*"];
    } else if origin.Some? && origin.value != [] && origin.value in allowed.origins {
      res.SetHeader("Access-Control-Allow-Origin", origin.value);
      SetOver(before, laid, "Access-Control-Allow-Origin", origin.value);
      laid := laid["Access-Control-Allow-Origin" := origin.value];
      res.SetHeader("Vary", "Origin");
      SetOver(before, laid, "Vary", "Origin");
      laid := laid["Vary" := "Origin"];
    }
    res.SetHeader("Access-Control-Allow-Methods", DEFAULT_ALLOWED_METHODS);
    SetOver(before, laid, "Access-Control-Allow-Methods", DEFAULT_ALLOWED_METHODS);
    laid := laid["Access-Control-Allow-Methods" := DEFAULT_ALLOWED_METHODS];
    res.SetHeader("Access-Control-Allow-Headers", requestHeaders.GetOr(DEFAULT_ALLOWED_HEADERS));
    SetOver(before, laid, "Access-Control-Allow-Headers", requestHeaders.GetOr(DEFAULT_ALLOWED_HEADERS));
    laid := laid["Access-Control-Allow-Headers" := requestHeaders.GetOr(DEFAULT_ALLOWED_HEADERS)];
    if requestMethod == "OPTIONS" {
      res.EndWith(204);
      return false;
    }
    return true;
  }

  /** Setting one more header over a response whose headers are `before`
      overlaid with `laid`. */
  lemma SetOver(before: map<string, string>, laid: map<string, string>, name: string, value: string)
    ensures (before + laid)[name := value] == before + laid[name := value]
  {
  }

  /** The headers the middleware may set. */
  const CORS_HEADERS: set<string> := {
    "Access-Control-Allow-Origin", "Vary", "Access-Control-Allow-Methods", "Access-Control-Allow-Headers"
  }
}
