/** The session bridge: finding the authenticated cookie in the browser's jar,
    the header set an API call carries, and how one form POST to the site's
    JSON API ends (`_post_form_json`). */
module SessionBridge {
  import opened Outcomes
  import opened Text
  import opened Json
  import opened Urls

  /** A cookie as the browser context lists it. */
  datatype Cookie = Cookie(name: string, value: string)

  /** The cookie whose value the API wants in its `botureadkernel` header. */
  const SessionCookie: string := "BotuReadKernel"

  /** First pass: the exact name, with a non-empty value. */
  predicate ExactHit(c: Cookie, name: string) {
    c.name == name && c.value != ""
  }

  /** Second pass: the name up to case, with a non-empty value. */
  predicate LooseHit(c: Cookie, name: string) {
    Lower(c.name) == Lower(name) && c.value != ""
  }

  predicate Hit(c: Cookie, name: string, exact: bool) {
    if exact then ExactHit(c, name) else LooseHit(c, name)
  }

  /** The value of the first cookie of `cs` that the pass accepts. */
  function FirstHit(cs: seq<Cookie>, name: string, exact: bool): (r: Option<string>)
  {
    if cs == [] then None
    else if Hit(cs[0], name, exact) then Some(cs[0].value)
    else FirstHit(cs[1..], name, exact)
  }

  /** What `_get_cookie_value` returns; a jar listing that raised (`None`) reads
      as an empty jar. */
  function CookieLookup(jar: Option<seq<Cookie>>, name: string): Option<string> {
    var cs := if jar.Some? then jar.value else [];
    match FirstHit(cs, name, true)
    case Some(v) => Some(v)
    case None => FirstHit(cs, name, false)
  }

  /** `_get_cookie_value`: two early-return scans of the jar, exact name first,
      then the case-insensitive fallback. */
  method GetCookieValue(jar: Option<seq<Cookie>>, name: string) returns (r: Option<string>)
    ensures r == CookieLookup(jar, name)
  {
    var cookies: seq<Cookie> := [];
    if jar.Some? {
      cookies := jar.value;
    }
    for i := 0 to |cookies|
      invariant FirstHit(cookies, name, true) == FirstHit(cookies[i..], name, true)
    {
      assert cookies[i..][1..] == cookies[i + 1..];
      var c := cookies[i];
      if c.name == name && c.value != "" {
        return Some(c.value);
      }
    }
    assert FirstHit(cookies, name, true) == None;
    var lowered := Lower(name);
    for i := 0 to |cookies|
      invariant FirstHit(cookies, name, false) == FirstHit(cookies[i..], name, false)
    {
      assert cookies[i..][1..] == cookies[i + 1..];
      var c := cookies[i];
      if Lower(c.name) == lowered && c.value != "" {
        return Some(c.value);
      }
    }
    return None;
  }

  lemma {:induction false} FirstHitFound(cs: seq<Cookie>, name: string, exact: bool, i: nat)
    requires i < |cs| && Hit(cs[i], name, exact)
    requires forall j :: 0 <= j < i ==> !Hit(cs[j], name, exact)
    ensures FirstHit(cs, name, exact) == Some(cs[i].value)
  {
    if i > 0 {
      FirstHitFound(cs[1..], name, exact, i - 1);
    }
  }

  lemma {:induction false} FirstHitNone(cs: seq<Cookie>, name: string, exact: bool)
    ensures FirstHit(cs, name, exact) == None <==> forall j :: 0 <= j < |cs| ==> !Hit(cs[j], name, exact)
  {
    if cs != [] {
      FirstHitNone(cs[1..], name, exact);
      assert forall j :: 1 <= j < |cs| ==> cs[j] == cs[1..][j - 1];
    }
  }

  lemma {:induction false} FirstHitSource(cs: seq<Cookie>, name: string, exact: bool) returns (i: nat)
    requires FirstHit(cs, name, exact).Some?
    ensures i < |cs| && Hit(cs[i], name, exact)
    ensures FirstHit(cs, name, exact) == Some(cs[i].value)
    ensures forall j :: 0 <= j < i ==> !Hit(cs[j], name, exact)
  {
    if Hit(cs[0], name, exact) {
      i := 0;
    } else {
      var k := FirstHitSource(cs[1..], name, exact);
      i := k + 1;
    }
  }

  /** An exact-name cookie with a value wins over every case-insensitive match,
      wherever the latter sits in the jar. */
  lemma LookupPrefersExact(cs: seq<Cookie>, name: string, i: nat)
    requires i < |cs| && ExactHit(cs[i], name)
    requires forall j :: 0 <= j < i ==> !ExactHit(cs[j], name)
    ensures CookieLookup(Some(cs), name) == Some(cs[i].value)
  {
    FirstHitFound(cs, name, true, i);
  }

  /** Without an exact-name hit, the first case-insensitive hit is returned. */
  lemma LookupFallback(cs: seq<Cookie>, name: string, i: nat)
    requires forall j :: 0 <= j < |cs| ==> !ExactHit(cs[j], name)
    requires i < |cs| && LooseHit(cs[i], name)
    requires forall j :: 0 <= j < i ==> !LooseHit(cs[j], name)
    ensures CookieLookup(Some(cs), name) == Some(cs[i].value)
  {
    FirstHitNone(cs, name, true);
    FirstHitFound(cs, name, false, i);
  }

  /** Nothing is found exactly when no cookie matches the name up to case with
      a non-empty value. */
  lemma LookupNoneIff(cs: seq<Cookie>, name: string)
    ensures CookieLookup(Some(cs), name) == None <==>
      forall j :: 0 <= j < |cs| ==> !LooseHit(cs[j], name)
  {
    FirstHitNone(cs, name, true);
    FirstHitNone(cs, name, false);
    if CookieLookup(Some(cs), name) == None {
      assert FirstHit(cs, name, false) == None;
    } else if FirstHit(cs, name, true).Some? {
      var i := FirstHitSource(cs, name, true);
      assert LooseHit(cs[i], name);
    }
  }

  /** A returned value is the non-empty value of a cookie whose name matches
      up to case. */
  lemma LookupSound(cs: seq<Cookie>, name: string) returns (i: nat)
    requires CookieLookup(Some(cs), name).Some?
    ensures i < |cs| && LooseHit(cs[i], name)
    ensures CookieLookup(Some(cs), name) == Some(cs[i].value) && cs[i].value != ""
  {
    if FirstHit(cs, name, true).Some? {
      i := FirstHitSource(cs, name, true);
    } else {
      i := FirstHitSource(cs, name, false);
    }
  }

  lemma LookupNonEmpty(jar: Option<seq<Cookie>>, name: string)
    ensures CookieLookup(jar, name).Some? ==> CookieLookup(jar, name).value != ""
  {
    if CookieLookup(jar, name).Some? {
      var cs := if jar.Some? then jar.value else [];
      assert CookieLookup(Some(cs), name) == CookieLookup(jar, name);
      var i := LookupSound(cs, name);
    }
  }

  /** The request headers of one API call (`_post_form_json`, lines 102-110). */
  function ApiHeaders(cookie: string, referer: Url, acceptLanguage: string): (h: map<string, string>)
    ensures h.Keys == {"accept", "accept-language", "content-type", "origin", "referer",
                       "x-requested-with", "botureadkernel"}
    ensures h["botureadkernel"] == cookie && h["referer"] == referer.text
    ensures h["origin"] == OriginForUrl(referer)
  {
    map[
      "accept" := "application/json, text/plain, */*",
      "accept-language" := acceptLanguage,
      "content-type" := "application/x-www-form-urlencoded; charset=UTF-8",
      "origin" := OriginForUrl(referer),
      "referer" := referer.text,
      "x-requested-with" := "XMLHttpRequest",
      "botureadkernel" := cookie
    ]
  }

  /** The longest raw body prefix a diagnostic quotes. */
  const SnippetLength: nat := 500

  /** `text[:500].strip().replace("\n", " ")`: the diagnostic excerpt of a body. */
  function Snippet(text: string): (r: string)
    ensures |r| <= SnippetLength && '\n' !in r
    ensures r == [] || (!IsSpace(r[0]) && !IsSpace(r[|r| - 1]))
  {
    Replace(Strip(Take(text, SnippetLength)), '\n', ' ')
  }

  /** The excerpt is the body's first 500 characters less the whitespace at
      both ends, with line breaks turned into spaces. */
  lemma SnippetOfBody(text: string) returns (i: nat, j: nat)
    ensures i <= j <= |text| && j <= SnippetLength
    ensures Snippet(text) == Replace(text[i..j], '\n', ' ')
    ensures forall k :: 0 <= k < i ==> IsSpace(text[k])
    ensures forall k :: j <= k < |Take(text, SnippetLength)| ==> IsSpace(text[k])
  {
    var t := Take(text, SnippetLength);
    i, j := StripCutsSpaces(t);
    PrefixAgrees(text, t, i, j);
  }

  /** A prefix of a text has the same characters and slices as the text. */
  lemma PrefixAgrees(text: string, t: string, i: nat, j: nat)
    requires |t| <= |text| && t == text[..|t|] && i <= j <= |t|
    ensures t[i..j] == text[i..j]
    ensures forall k :: 0 <= k < |t| ==> t[k] == text[k]
  {
    assert forall k :: 0 <= k < |t| ==> t[k] == text[..|t|][k];
  }

  /** What the server sent back for one POST: the status, the body text, and
      the body parsed as JSON (`None` when `json.loads` rejects it). */
  datatype Reply = Reply(status: int, text: string, body: Option<Value>)

  /** `_post_form_json`: the cookie is checked before anything else, then the
      status, then whether the body is JSON. */
  function PostFormJson(jar: Option<seq<Cookie>>, reply: Reply): (r: Result<Value>)
    ensures CookieLookup(jar, SessionCookie).None? ==> r == Err(MissingCredential)
    ensures CookieLookup(jar, SessionCookie).Some? && !(200 <= reply.status < 300) ==>
      r == Err(ApiHttpError(reply.status, Snippet(reply.text)))
    ensures CookieLookup(jar, SessionCookie).Some? && 200 <= reply.status < 300 && reply.body.None? ==>
      r == Err(ApiNotJson(Snippet(reply.text)))
    ensures r.Ok? <==> CookieLookup(jar, SessionCookie).Some? && 200 <= reply.status < 300 && reply.body.Some?
    ensures r.Ok? ==> r.value == reply.body.value
  {
    var cookie := CookieLookup(jar, SessionCookie);
    LookupNonEmpty(jar, SessionCookie);
    if cookie.None? || cookie.value == "" then Err(MissingCredential)
    else if reply.status < 200 || reply.status >= 300 then Err(ApiHttpError(reply.status, Snippet(reply.text)))
    else if reply.body.None? then Err(ApiNotJson(Snippet(reply.text)))
    else Ok(reply.body.value)
  }
}
