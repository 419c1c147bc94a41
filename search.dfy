/** The image search: the query sanitiser, the request URL, the primary
    search with its error handling, and the one fallback search with a
    generic term when the primary finds nothing.  The network is replaced by
    the reply each request receives, and `Math.random` by the index it picks. */
module Search {
  import opened JsString

  /** The generic terms the fallback search picks from. */
  const FallbackTerms: seq<string> := ["nature", "abstract", "landscape", "technology", "science", "art"]

  // ------------------------------------------------------------ sanitiser

  /** The class `[a-zA-Z0-9]`. */
  predicate IsAlnum(c: char) {
    'a' <= c <= 'z' || 'A' <= c <= 'Z' || '0' <= c <= '9'
  }

  predicate AlnumOrSpace(s: string) {
    forall i :: 0 <= i < |s| ==> IsAlnum(s[i]) || IsSpace(s[i])
  }

  predicate AlnumOrPlus(s: string) {
    forall i :: 0 <= i < |s| ==> IsAlnum(s[i]) || s[i] == '+'
  }

  /** No two `+` in a row. */
  predicate NoDoublePlus(s: string) {
    forall i :: 1 <= i < |s| && s[i] == '+' ==> s[i - 1] != '+'
  }

  /** The letters and digits of `s`, in order: what a query means to the search. */
  function Alnums(s: string): string {
    if s == [] then [] else (if IsAlnum(s[0]) then [s[0]] else []) + Alnums(s[1..])
  }

  /** `replace(/[^a-zA-Z0-9\s]/g, '')`: every character that is neither a
      letter, a digit nor white space is deleted. */
  function StripSymbols(s: string): (r: string)
    ensures AlnumOrSpace(r)
    ensures Alnums(r) == Alnums(s)
    ensures |s| == 1 ==> r == if IsAlnum(s[0]) || IsSpace(s[0]) then s else []
  {
    if s == [] then []
    else if IsAlnum(s[0]) || IsSpace(s[0]) then [s[0]] + StripSymbols(s[1..])
    else StripSymbols(s[1..])
  }

  /** The replacement works character by character: stripping a
      concatenation strips each part, in order.  With the one-character case
      of StripSymbols this fixes the result on every string. */
  lemma {:induction false} StripAppend(a: string, b: string)
    ensures StripSymbols(a + b) == StripSymbols(a) + StripSymbols(b)
  {
    if a == [] {
      assert a + b == b;
    } else {
      assert (a + b)[1..] == a[1..] + b;
      StripAppend(a[1..], b);
    }
  }

  /** `replace(/\s+/g, '+')`: each maximal run of white space becomes one `+`. */
  function CollapseSpaces(s: string): (r: string)
    ensures s == [] <==> r == []
    ensures s != [] ==> r[0] == if IsSpace(s[0]) then '+' else s[0]
    decreases |s|
  {
    if s == [] then []
    else if IsSpace(s[0]) then
      TrimStartShrinks(s);
      "+" + CollapseSpaces(TrimStart(s))
    else [s[0]] + CollapseSpaces(s[1..])
  }

  /** A maximal run of white space becomes a single `+`, and collapsing goes
      on after it. */
  lemma CollapseRunLaw(ws: string, rest: string)
    requires ws != [] && forall i :: 0 <= i < |ws| ==> IsSpace(ws[i])
    requires rest == [] || !IsSpace(rest[0])
    ensures CollapseSpaces(ws + rest) == "+" + CollapseSpaces(rest)
  {
    assert (ws + rest)[0] == ws[0];
    if rest == [] {
      assert ws + rest == ws;
    } else {
      TrimStartPadded(ws, rest);
    }
  }

  /** A character that is not white space is kept, and collapsing goes on after it. */
  lemma CollapseKeeps(c: char, rest: string)
    requires !IsSpace(c)
    ensures CollapseSpaces([c] + rest) == [c] + CollapseSpaces(rest)
  {
    assert ([c] + rest)[1..] == rest;
  }

  /** A string without white space is left as it is. */
  lemma {:induction false} CollapseNoSpace(s: string)
    requires NoSpace(s)
    ensures CollapseSpaces(s) == s
  {
    if s != [] {
      assert !IsSpace(s[0]);
      assert NoSpace(s[1..]) by {
        forall i | 0 <= i < |s[1..]| ensures !IsSpace(s[1..][i]) {
          assert s[1..][i] == s[i + 1];
        }
      }
      CollapseNoSpace(s[1..]);
      CollapseKeeps(s[0], s[1..]);
      assert [s[0]] + s[1..] == s;
    }
  }

  /** Collapsing a string of letters, digits and white space leaves letters,
      digits and single `+` separators. */
  lemma {:induction false} CollapseShape(s: string)
    requires AlnumOrSpace(s)
    ensures AlnumOrPlus(CollapseSpaces(s)) && NoDoublePlus(CollapseSpaces(s))
    decreases |s|
  {
    if s == [] {
    } else if IsSpace(s[0]) {
      var rest := TrimStart(s);
      TrimStartShrinks(s);
      CollapseRun(s, rest);
      CollapseShape(rest);
      var r := CollapseSpaces(rest);
      assert r != [] ==> r[0] != '+';
      PlusThenShape(r);
    } else {
      CollapseShape(s[1..]);
      LetterThenShape(s[0], CollapseSpaces(s[1..]));
    }
  }

  lemma PlusThenShape(r: string)
    requires AlnumOrPlus(r) && NoDoublePlus(r) && (r != [] ==> r[0] != '+')
    ensures AlnumOrPlus("+" + r) && NoDoublePlus("+" + r)
  {
    var t := "+" + r;
    forall i | 1 <= i < |t| ensures t[i] == r[i - 1] { }
  }

  lemma LetterThenShape(c: char, r: string)
    requires IsAlnum(c) && AlnumOrPlus(r) && NoDoublePlus(r)
    ensures AlnumOrPlus([c] + r) && NoDoublePlus([c] + r)
  {
    var t := [c] + r;
    forall i | 1 <= i < |t| ensures t[i] == r[i - 1] { }
  }

  lemma TrimStartShrinks(s: string)
    requires s != [] && IsSpace(s[0])
    ensures |TrimStart(s)| < |s|
  {
  }

  /** What is left after a run of white space is a clean suffix that does not start with white space. */
  lemma CollapseRun(s: string, rest: string)
    requires |rest| <= |s| && rest == s[|s| - |rest|..]
    ensures AlnumOrSpace(s) ==> AlnumOrSpace(rest)
  {
    if AlnumOrSpace(s) {
      forall i | 0 <= i < |rest| ensures IsAlnum(rest[i]) || IsSpace(rest[i]) {
        assert rest[i] == s[|s| - |rest| + i];
      }
    }
  }

  /** The query as sent: trimmed, symbols deleted, white-space runs turned
      into `+`.  It holds only letters, digits and single `+` separators, and
      keeps every letter and digit of the query, in order. */
  function Sanitize(query: string): (r: string)
    ensures AlnumOrPlus(r) && NoDoublePlus(r)
    ensures Alnums(r) == Alnums(query)
  {
    var t := Trim(query);
    AlnumsTrim(query);
    CollapseShape(StripSymbols(t));
    AlnumsCollapse(StripSymbols(t));
    CollapseSpaces(StripSymbols(t))
  }

  lemma {:induction false} AlnumsAppend(a: string, b: string)
    ensures Alnums(a + b) == Alnums(a) + Alnums(b)
  {
    if a == [] {
      assert a + b == b;
    } else {
      assert (a + b)[1..] == a[1..] + b;
      AlnumsAppend(a[1..], b);
      var h := if IsAlnum(a[0]) then [a[0]] else [];
      assert h + (Alnums(a[1..]) + Alnums(b)) == (h + Alnums(a[1..])) + Alnums(b);
    }
  }

  lemma {:induction false} AlnumsOfSpace(s: string)
    requires forall i :: 0 <= i < |s| ==> IsSpace(s[i])
    ensures Alnums(s) == []
  {
    if s != [] {
      AlnumsOfSpace(s[1..]);
    }
  }

  /** Trimming removes only white space, so no letter or digit. */
  lemma AlnumsTrim(s: string)
    ensures Alnums(Trim(s)) == Alnums(s)
  {
    AlnumsTrimStart(s);
    AlnumsTrimEnd(TrimStart(s));
  }

  lemma {:induction false} AlnumsTrimStart(s: string)
    ensures Alnums(TrimStart(s)) == Alnums(s)
    decreases |s|
  {
    if s != [] && IsSpace(s[0]) {
      AlnumsTrimStart(s[1..]);
    }
  }

  lemma {:induction false} AlnumsTrimEnd(s: string)
    ensures Alnums(TrimEnd(s)) == Alnums(s)
    decreases |s|
  {
    if s != [] && IsSpace(s[|s| - 1]) {
      var init := s[..|s| - 1];
      AlnumsTrimEnd(init);
      assert s == init + [s[|s| - 1]];
      AlnumsAppend(init, [s[|s| - 1]]);
      assert Alnums([s[|s| - 1]]) == [];
    }
  }

  /** Collapsing white space keeps every letter and digit. */
  lemma {:induction false} AlnumsCollapse(s: string)
    ensures Alnums(CollapseSpaces(s)) == Alnums(s)
    decreases |s|
  {
    if s == [] {
    } else if IsSpace(s[0]) {
      var rest := TrimStart(s);
      var k := |s| - |rest|;
      AlnumsCollapse(rest);
      assert s == s[..k] + rest;
      AlnumsAppend(s[..k], rest);
      AlnumsOfSpace(s[..k]);
      AlnumsAppend("+", CollapseSpaces(rest));
    } else {
      AlnumsCollapse(s[1..]);
      AlnumsAppend([s[0]], CollapseSpaces(s[1..]));
      AlnumsAppend([s[0]], s[1..]);
      assert [s[0]] + s[1..] == s;
    }
  }

  predicate AlnumWord(w: string) {
    w != [] && forall i :: 0 <= i < |w| ==> IsAlnum(w[i])
  }

  /** Words of letters and digits separated by single spaces are sent joined by `+`. */
  lemma SanitizeWords(words: seq<string>)
    requires words != [] && forall i :: 0 <= i < |words| ==> AlnumWord(words[i])
    ensures Sanitize(Join(words, " ")) == Join(words, "+")
  {
    var j := Join(words, " ");
    JoinOfWords(words);
    TrimmedOfAlnum(j);
    StripKeeps(j);
    CollapseWords(words);
  }

  lemma {:induction false} JoinOfWords(words: seq<string>)
    requires words != [] && forall i :: 0 <= i < |words| ==> AlnumWord(words[i])
    ensures var j := Join(words, " "); j != [] && IsAlnum(j[0]) && IsAlnum(j[|j| - 1])
    ensures AlnumOrSpace(Join(words, " "))
  {
    if |words| > 1 {
      JoinOfWords(words[1..]);
      var w, rest := words[0], Join(words[1..], " ");
      var j := w + " " + rest;
      assert Join(words, " ") == j;
      forall i | 0 <= i < |j| ensures IsAlnum(j[i]) || IsSpace(j[i]) {
        if i < |w| { assert j[i] == w[i]; }
        else if i > |w| { assert j[i] == rest[i - |w| - 1]; }
      }
    } else {
      assert AlnumWord(words[0]);
    }
  }

  lemma TrimmedOfAlnum(s: string)
    requires s != [] && IsAlnum(s[0]) && IsAlnum(s[|s| - 1])
    ensures Trim(s) == s
  {
    assert Trimmed(s);
  }

  lemma {:induction false} StripKeeps(s: string)
    requires AlnumOrSpace(s)
    ensures StripSymbols(s) == s
  {
    if s != [] {
      StripKeeps(s[1..]);
      assert [s[0]] + s[1..] == s;
    }
  }

  lemma {:induction false} CollapseWords(words: seq<string>)
    requires words != [] && forall i :: 0 <= i < |words| ==> AlnumWord(words[i])
    ensures CollapseSpaces(Join(words, " ")) == Join(words, "+")
  {
    if |words| == 1 {
      CollapseAlnum(words[0], []);
      assert words[0] + [] == words[0];
    } else {
      var w, rest := words[0], words[1..];
      CollapseWords(rest);
      JoinOfWords(rest);
      var tail := Join(rest, " ");
      assert Join(words, " ") == w + (" " + tail);
      CollapseAlnum(w, " " + tail);
      assert TrimStart(" " + tail) == tail by {
        TrimStartPadded(" ", tail);
      }
      assert CollapseSpaces(" " + tail) == "+" + CollapseSpaces(tail);
      assert Join(words, "+") == w + ("+" + Join(rest, "+"));
    }
  }

  /** Letters and digits in front of the input pass through unchanged. */
  lemma {:induction false} CollapseAlnum(w: string, s: string)
    requires forall i :: 0 <= i < |w| ==> IsAlnum(w[i])
    ensures CollapseSpaces(w + s) == w + CollapseSpaces(s)
  {
    if w == [] {
      assert w + s == s;
    } else {
      CollapseHead(w, s);
      CollapseAlnum(w[1..], s);
      ConsSplit(w, CollapseSpaces(s));
    }
  }

  /** A letter or digit at the front passes through unchanged. */
  lemma CollapseHead(w: string, s: string)
    requires w != [] && IsAlnum(w[0])
    ensures CollapseSpaces(w + s) == [w[0]] + CollapseSpaces(w[1..] + s)
  {
    assert (w + s)[1..] == w[1..] + s;
  }

  lemma ConsSplit(w: string, x: string)
    requires w != []
    ensures [w[0]] + (w[1..] + x) == w + x
  {
  }

  // ------------------------------------------------------------ requests

  /** The request URL for `limit` photos matching `q`: the key is the first
      parameter, the query the second. */
  function SearchUrl(key: string, q: string, limit: nat): (url: string)
    ensures ApiBase + key + "&q=" + q < url
  {
    ApiBase + key + "&" + "q=" + q + "&" + "image_type=photo" + "&"
      + "per_page=" + Decimal(limit) + "&" + "safesearch=true"
  }

  /** The endpoint and the name of the first parameter. */
  const ApiBase: string := "https://pixabay.com/api/?key="

  /** The query-string fields of a request URL. */
  function UrlFields(key: string, q: string, limit: nat): seq<string> {
    [ApiBase + key, "q=" + q, "image_type=photo",
     "per_page=" + Decimal(limit), "safesearch=true"]
  }

  /** `s` contains no `&`. */
  predicate NoAmpersand(s: string) {
    forall i :: 0 <= i < |s| ==> s[i] != '&'
  }

  lemma NoAmpersandAppend(a: string, b: string)
    requires NoAmpersand(a) && NoAmpersand(b)
    ensures NoAmpersand(a + b)
  {
    forall i | 0 <= i < |a + b| ensures (a + b)[i] != '&' {
      if i >= |a| { assert (a + b)[i] == b[i - |a|]; }
    }
  }

  lemma UrlIsJoin(key: string, q: string, limit: nat)
    ensures Join(UrlFields(key, q, limit), "&") == SearchUrl(key, q, limit)
  {
    var f := UrlFields(key, q, limit);
    JoinFive(f, "&");
    var a := "https://pixabay.com/api/?key=" + key + "&";
    assert a + f[1] == a + "q=" + q;
    var b := a + "q=" + q + "&";
    assert b + f[2] + "&" + f[3] == b + "image_type=photo" + "&" + "per_page=" + Decimal(limit);
  }

  lemma JoinFive(f: seq<string>, sep: string)
    requires |f| == 5
    ensures Join(f, sep) == f[0] + sep + f[1] + sep + f[2] + sep + f[3] + sep + f[4]
  {
    assert Join(f[4..], sep) == f[4];
    assert Join(f[3..], sep) == f[3] + sep + f[4] by { assert f[3..][1..] == f[4..]; }
    assert Join(f[2..], sep) == f[2] + sep + Join(f[3..], sep) by { assert f[2..][1..] == f[3..]; }
    assert Join(f[1..], sep) == f[1] + sep + Join(f[2..], sep) by { assert f[1..][1..] == f[2..]; }
  }

  /** When neither the key nor the query contains `&`, the URL's fields
      separate again into exactly the key, the query and the count: the
      query cannot inject a parameter. */
  lemma SearchUrlFields(key: string, q: string, limit: nat)
    requires NoAmpersand(key) && NoAmpersand(q)
    ensures Split(SearchUrl(key, q, limit), "&") == UrlFields(key, q, limit)
  {
    var f := UrlFields(key, q, limit);
    UrlIsJoin(key, q, limit);
    NoAmpersandAppend("https://pixabay.com/api/?key=", key);
    NoAmpersandAppend("q=", q);
    var d := Decimal(limit);
    assert NoAmpersand(d) by {
      forall i | 0 <= i < |d| ensures d[i] != '&' {
        assert '0' <= d[i] <= '9';
      }
    }
    NoAmpersandAppend("per_page=", d);
    forall i | 0 <= i < |f| ensures Separable(f[i], "&") {
      assert NoAmpersand(f[i]);
      SeparableByChar(f[i], '&');
    }
    SplitJoin(f, "&");
  }

  /** A sanitised query always travels as its own `q` field. */
  lemma SanitizedQueryField(key: string, query: string, limit: nat)
    requires NoAmpersand(key)
    ensures Split(SearchUrl(key, Sanitize(query), limit), "&") == UrlFields(key, Sanitize(query), limit)
  {
    var q := Sanitize(query);
    forall i | 0 <= i < |q| ensures q[i] != '&' {
      assert IsAlnum(q[i]) || q[i] == '+';
    }
    SearchUrlFields(key, q, limit);
  }

  // ------------------------------------------------------------ searching

  /** What a request receives: a rejected fetch, with the error's `name`, or
      a response with its `ok` flag, status and the `hits` array of its JSON
      body (absent or the `largeImageURL` of each hit). */
  datatype Reply =
    | Rejected(name: string)
    | Answered(ok: bool, status: int, hits: Option<seq<string>>)

  /** The name of the error a fetch rejects with when its `AbortSignal.timeout` fires. */
  const TimeoutErrorName: string := "TimeoutError"
  /** The name of the error a fetch rejects with when it is aborted otherwise. */
  const AbortErrorName: string := "AbortError"

  datatype SearchError =
    | MissingKey                 // PIXABAY_API unset or empty
    | HttpError(status: int)     // primary answered with a non-2xx status
    | Timeout                    // primary request timed out
    | Thrown(name: string)       // primary request rejected otherwise
    | FallbackHttpError(status: int)
    | FallbackThrown(name: string)  // fallback rejected: never turned into Timeout
    | FallbackMalformed          // fallback body without `hits`

  /** The requests issued, in order, and the outcome. */
  datatype SearchRun = SearchRun(requests: seq<string>, result: Result<seq<string>, SearchError>)

  /** The primary's catch as written: only an `AbortError` becomes `Timeout`. */
  function PrimaryRejectionAsWritten(name: string): (e: SearchError)
    ensures e == Timeout <==> name == AbortErrorName
    ensures e != Timeout ==> e == Thrown(name)
  {
    if name == AbortErrorName then Timeout else Thrown(name)
  }

  /** The primary's catch as intended: the timeout the request sets up, which
      rejects with a `TimeoutError`, is reported as `Timeout` too. */
  function PrimaryRejection(name: string): (e: SearchError)
    ensures e == Timeout <==> name == AbortErrorName || name == TimeoutErrorName
    ensures e != Timeout ==> e == Thrown(name)
  {
    if name == AbortErrorName || name == TimeoutErrorName then Timeout else Thrown(name)
  }

  /** The primary found nothing: `hits` absent or empty. */
  predicate NoHits(reply: Reply) {
    reply.Answered? && reply.ok && (reply.hits.None? || reply.hits.value == [])
  }

  /** pixabayImageSearchFallback: one request for a generic term. */
  function FallbackSearch(key: string, limit: nat, pick: nat, reply: Reply): (run: SearchRun)
    requires pick < |FallbackTerms|
    ensures run.requests == [SearchUrl(key, FallbackTerms[pick], limit)]
    ensures run.result.Ok? <==> reply.Answered? && reply.ok && reply.hits.Some?
    ensures run.result.Ok? ==> run.result.value == reply.hits.value
    ensures reply.Rejected? ==> run.result == Err(FallbackThrown(reply.name))
    ensures reply.Answered? && !reply.ok ==> run.result == Err(FallbackHttpError(reply.status))
    ensures reply.Answered? && reply.ok && reply.hits.None? ==> run.result == Err(FallbackMalformed)
  {
    var url := SearchUrl(key, FallbackTerms[pick], limit);
    match reply
    case Rejected(name) => SearchRun([url], Err(FallbackThrown(name)))
    case Answered(ok, status, hits) =>
      if !ok then SearchRun([url], Err(FallbackHttpError(status)))
      else if hits.None? then SearchRun([url], Err(FallbackMalformed))
      else SearchRun([url], Ok(hits.value))
  }

  /** pixabayImageSearch: check the key, send the sanitised query, and fall
      back when it finds nothing.  The fallback is returned without being
      awaited, so its failures pass the primary's catch unchanged. */
  function ImageSearch(key: string, query: string, limit: nat, primary: Reply, pick: nat, fallback: Reply): (run: SearchRun)
    requires pick < |FallbackTerms|
    ensures key == "" <==> run == SearchRun([], Err(MissingKey))
    ensures key != "" ==> 1 <= |run.requests| <= 2 && run.requests[0] == SearchUrl(key, Sanitize(query), limit)
    ensures key != "" && primary.Rejected? ==>
      |run.requests| == 1 && run.result == Err(PrimaryRejectionAsWritten(primary.name))
    ensures key != "" && primary.Answered? && !primary.ok ==>
      |run.requests| == 1 && run.result == Err(HttpError(primary.status))
    ensures key != "" && NoHits(primary) ==>
      var fb := FallbackSearch(key, limit, pick, fallback);
      run.requests == [SearchUrl(key, Sanitize(query), limit)] + fb.requests && run.result == fb.result
  {
    if key == "" then SearchRun([], Err(MissingKey))
    else
      var url := SearchUrl(key, Sanitize(query), limit);
      match primary
      case Rejected(name) => SearchRun([url], Err(PrimaryRejectionAsWritten(name)))
      case Answered(ok, status, hits) =>
        if !ok then SearchRun([url], Err(HttpError(status)))
        else if NoHits(primary) then
          var fb := FallbackSearch(key, limit, pick, fallback);
          SearchRun([url] + fb.requests, fb.result)
        else SearchRun([url], Ok(hits.value))
  }

  /** The search with the corrected catch: a rejected primary is reported
      through `PrimaryRejection`; every other outcome is the search's own. */
  function ImageSearchCorrected(key: string, query: string, limit: nat, primary: Reply, pick: nat, fallback: Reply)
    : (run: SearchRun)
    requires pick < |FallbackTerms|
    ensures run.requests == ImageSearch(key, query, limit, primary, pick, fallback).requests
    ensures key != "" && primary.Rejected? ==> run.result == Err(PrimaryRejection(primary.name))
    ensures !(key != "" && primary.Rejected?) ==> run == ImageSearch(key, query, limit, primary, pick, fallback)
  {
    var run := ImageSearch(key, query, limit, primary, pick, fallback);
    if key != "" && primary.Rejected? then SearchRun(run.requests, Err(PrimaryRejection(primary.name)))
    else run
  }

  /** A primary request stopped by its own `AbortSignal.timeout` rejects with
      a `TimeoutError`: the search as written reports it as that thrown error,
      not as `Timeout`; the corrected search reports `Timeout`. */
  lemma TimeoutMissedAsWritten(key: string, query: string, limit: nat, pick: nat, fallback: Reply)
    requires pick < |FallbackTerms| && key != ""
    ensures PrimaryRejectionAsWritten(TimeoutErrorName) == Thrown(TimeoutErrorName)
    ensures ImageSearch(key, query, limit, Rejected(TimeoutErrorName), pick, fallback).result
      == Err(Thrown(TimeoutErrorName))
    ensures ImageSearchCorrected(key, query, limit, Rejected(TimeoutErrorName), pick, fallback).result
      == Err(Timeout)
  {
  }

  /** Exactly when the primary finds nothing is there a second request, and
      it asks for one of the generic terms. */
  lemma FallbackExactlyOnNoHits(key: string, query: string, limit: nat, primary: Reply, pick: nat, fallback: Reply)
    requires pick < |FallbackTerms|
    ensures var run := ImageSearch(key, query, limit, primary, pick, fallback);
      (|run.requests| == 2 <==> key != "" && NoHits(primary))
      && (|run.requests| == 2 ==> exists t :: t in FallbackTerms && run.requests[1] == SearchUrl(key, t, limit))
  {
    var run := ImageSearch(key, query, limit, primary, pick, fallback);
    RequestCount(key, query, limit, primary, pick, fallback);
    if key != "" && NoHits(primary) {
      var t := FallbackTerms[pick];
      assert t in FallbackTerms;
      assert run.requests[1] == SearchUrl(key, t, limit);
    }
  }

  lemma RequestCount(key: string, query: string, limit: nat, primary: Reply, pick: nat, fallback: Reply)
    requires pick < |FallbackTerms|
    ensures var run := ImageSearch(key, query, limit, primary, pick, fallback);
      |run.requests| == (if key == "" then 0 else if NoHits(primary) then 2 else 1)
      && (key != "" && NoHits(primary) ==> run.requests[1] == SearchUrl(key, FallbackTerms[pick], limit))
  {
  }

  /** With hits the primary's URLs are the result, however few there are. */
  lemma HitsPassThrough(key: string, query: string, limit: nat, primary: Reply, pick: nat, fallback: Reply)
    requires pick < |FallbackTerms|
    requires key != "" && primary.Answered? && primary.ok && primary.hits.Some? && primary.hits.value != []
    ensures ImageSearch(key, query, limit, primary, pick, fallback) ==
      SearchRun([SearchUrl(key, Sanitize(query), limit)], Ok(primary.hits.value))
  {
  }

  /** A search succeeds only with the hits of one of its replies. */
  lemma SearchResultFromReplies(key: string, query: string, limit: nat, primary: Reply, pick: nat, fallback: Reply)
    requires pick < |FallbackTerms|
    ensures var run := ImageSearch(key, query, limit, primary, pick, fallback);
      run.result.Ok? ==>
        (primary.Answered? && primary.hits.Some? && run.result.value == primary.hits.value != [])
        || (NoHits(primary) && fallback.Answered? && fallback.hits.Some? && run.result.value == fallback.hits.value)
  {
  }
}
