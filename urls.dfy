/** The two URL helpers of the downloader, over the components `urlparse`
    splits a URL into. */
module Urls {
  import opened Text

  /** A URL as `urlparse` splits it, together with the text it was parsed from. */
  datatype Url = Url(text: string, scheme: string, netloc: string, path: string)

  /** The e-reserves site's host name. */
  const SiteHost: string := "ereserves.lib.tsinghua.edu.cn"

  /** The origin used when a referer has no scheme or no host. */
  const DefaultOrigin: string := "https://" + SiteHost

  /** The login page the browser opens first. */
  const EntryUrl: Url := Url("https://" + SiteHost + "/", "https", SiteHost, "/")

  /** `_origin_for_url`: `scheme://host` of the URL, or the site's own origin
      when either part is missing. */
  function OriginForUrl(u: Url): (r: string)
    ensures u.scheme == "" || u.netloc == "" ==> r == DefaultOrigin
    ensures u.scheme != "" && u.netloc != "" ==> r == u.scheme + "://" + u.netloc
  {
    if u.scheme == "" || u.netloc == "" then DefaultOrigin else u.scheme + "://" + u.netloc
  }

  /** Whatever the URL, the origin is a non-empty scheme, `://`, and a
      non-empty host; and the fallback is exactly the origin of the login page. */
  lemma OriginShape(u: Url) returns (scheme: string, host: string)
    ensures scheme != "" && host != ""
    ensures OriginForUrl(u) == scheme + "://" + host
    ensures (scheme == u.scheme && host == u.netloc) || OriginForUrl(u) == OriginForUrl(EntryUrl)
  {
    if u.scheme == "" || u.netloc == "" {
      scheme, host := EntryUrl.scheme, EntryUrl.netloc;
      DefaultOriginSplits();
    } else {
      scheme, host := u.scheme, u.netloc;
    }
  }

  lemma DefaultOriginSplits()
    ensures DefaultOrigin == EntryUrl.scheme + "://" + EntryUrl.netloc
  {
    assert "https" + "://" == "https://";
  }

  /** `_last_path_segment`: the path without its trailing slashes, cut after its
      last remaining slash; empty when nothing but slashes is left. */
  function LastPathSegment(path: string): (r: string)
    ensures '/' !in r
    ensures r == "" <==> forall k :: 0 <= k < |path| ==> path[k] == '/'
  {
    var p := TrimTrailing(path, '/');
    if p == "" then "" else AfterLast(p, '/')
  }

  /** The segment after the last slash of `p/s` is `s`. */
  lemma LastPathSegmentOfJoin(p: string, s: string)
    requires s != "" && '/' !in s
    ensures LastPathSegment(p + "/" + s) == s
  {
    var u := p + "/" + s;
    assert u[|u| - 1] == s[|s| - 1];
    assert TrimTrailing(u, '/') == u;
    AfterLastOfJoin(p, '/', s);
  }

  /** Trailing slashes do not change the segment: `/a/b/` names `b` like `/a/b`. */
  lemma {:induction false} LastPathSegmentTrailingSlash(p: string)
    ensures LastPathSegment(p + "/") == LastPathSegment(p)
  {
    assert (p + "/")[..|p|] == p;
    assert TrimTrailing(p + "/", '/') == TrimTrailing(p, '/');
  }
}
