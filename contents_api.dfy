/**
 * The request built from the captures of a blob URL -- the Contents API URL
 * and the Authorization header -- and the download that sends it, checks the
 * status, and decodes the body.
 *
 * The HTTP exchange and the JSON decoder sit outside the model: `Download`
 * takes them as the functions `send` and `decode`.
 */
module ContentsApi {
  import opened Errors
  import opened Text
  import opened BlobUrl

  /** The fixed start of every Contents API URL. */
  const ApiBase: string := "https://api.github.com/repos/"
  /** The literal between the repository and the path. */
  const ContentsSeparator: string := "/contents/"
  /** The query that carries the ref. */
  const RefQuery: string := "?ref="

  /** `?ref={ref}` */
  function QueryTail(r: RepoFileRef): string {
    RefQuery + r.ref
  }

  /** `/contents/{path}?ref={ref}` */
  function ContentsTail(r: RepoFileRef): string {
    ContentsSeparator + (r.path + QueryTail(r))
  }

  /** `/{repo}/contents/{path}?ref={ref}` */
  function ApiRepoTail(r: RepoFileRef): string {
    "/" + (r.repo + ContentsTail(r))
  }

  /**
   * The Contents API URL for the captures:
   * `https://api.github.com/repos/{owner}/{repo}/contents/{path}?ref={ref}`,
   * every capture inserted verbatim, without percent-encoding.
   */
  function ApiUrl(r: RepoFileRef): string {
    ApiBase + (r.owner + ApiRepoTail(r))
  }

  /** The value of the Authorization header for a personal access token. */
  function AuthorizationHeader(token: string): string {
    "token " + token
  }

  // ---------------------------------------------------------------------------
  // The inverse of ApiUrl, on the captures a blob URL can produce whose path
  // holds no `?`.
  // ---------------------------------------------------------------------------

  /** Reads the captures back out of a Contents API URL: the path runs to the first `?`. */
  function SplitApiUrl(u: string): Option<RepoFileRef> {
    if !LiteralAt(u, 0, ApiBase) then None
    else
      match SegmentEnd(u, |ApiBase|)
      case None => None
      case Some(b) => SplitRepo(u, b)
  }

  /** The rest once the owner ends at `b`: the repository, then `/contents/`. */
  function SplitRepo(u: string, b: nat): Option<RepoFileRef>
    requires |ApiBase| < b < |u|
  {
    match SegmentEnd(u, b + 1)
    case None => None
    case Some(c) => if !LiteralAt(u, c, ContentsSeparator) then None else SplitQuery(u, b, c)
  }

  /** The rest once `/contents/` stands at `c`: the path up to the first `?`, then `?ref=` and the ref. */
  function SplitQuery(u: string, b: nat, c: nat): Option<RepoFileRef>
    requires |ApiBase| < b && b + 1 < c && c + |ContentsSeparator| <= |u|
  {
    var e := FirstFrom(u, c + |ContentsSeparator|, '?');
    if !LiteralAt(u, e, RefQuery) then None
    else
      var r := RepoFileRef(u[|ApiBase|..b], u[b + 1..c], u[e + |RefQuery|..], u[c + |ContentsSeparator|..e]);
      if Segment(r.ref) && '\n' !in r.path then Some(r) else None
  }

  /** What `SplitApiUrl` has seen when it succeeds: the literals, the group ends and the captures they cut. */
  lemma SplitBounds(u: string, r: RepoFileRef) returns (b: nat, c: nat, e: nat)
    requires SplitApiUrl(u) == Some(r)
    ensures |ApiBase| < b && b + 1 < c && c + |ContentsSeparator| <= e && e + |RefQuery| <= |u|
    ensures LiteralAt(u, 0, ApiBase) && SegmentEnd(u, |ApiBase|) == Some(b)
    ensures SegmentEnd(u, b + 1) == Some(c) && LiteralAt(u, c, ContentsSeparator)
    ensures e == FirstFrom(u, c + |ContentsSeparator|, '?') && LiteralAt(u, e, RefQuery)
    ensures r == RepoFileRef(u[|ApiBase|..b], u[b + 1..c], u[e + |RefQuery|..], u[c + |ContentsSeparator|..e])
    ensures Segment(r.ref) && '\n' !in r.path
  {
    assert LiteralAt(u, 0, ApiBase);
    b := SegmentEnd(u, |ApiBase|).value;
    assert SplitApiUrl(u) == SplitRepo(u, b);
    c := SegmentEnd(u, b + 1).value;
    assert LiteralAt(u, c, ContentsSeparator);
    assert SplitRepo(u, b) == SplitQuery(u, b, c);
    e := FirstFrom(u, c + |ContentsSeparator|, '?');
    assert LiteralAt(u, e, RefQuery);
  }

  /** `?ref=` and the ref spell `QueryTail`. */
  lemma QuerySpelled(u: string, e: nat, r: RepoFileRef)
    requires e + |RefQuery| <= |u| && LiteralAt(u, e, RefQuery) && u[e + |RefQuery|..] == r.ref
    ensures u[e..|u|] == QueryTail(r)
  {
    Glue(u, e, e + |RefQuery|, |u|, RefQuery, r.ref);
  }

  /** `/contents/` and the path in front of `QueryTail` spell `ContentsTail`. */
  lemma ContentsSpelled(u: string, c: nat, e: nat, r: RepoFileRef)
    requires c + |ContentsSeparator| <= e <= |u| && LiteralAt(u, c, ContentsSeparator)
    requires u[c + |ContentsSeparator|..e] == r.path && u[e..|u|] == QueryTail(r)
    ensures u[c..|u|] == ContentsTail(r)
  {
    Glue(u, c + |ContentsSeparator|, e, |u|, r.path, QueryTail(r));
    Glue(u, c, c + |ContentsSeparator|, |u|, ContentsSeparator, r.path + QueryTail(r));
  }

  /** `/` and the repository in front of `ContentsTail` spell `ApiRepoTail`. */
  lemma ApiRepoSpelled(u: string, b: nat, c: nat, r: RepoFileRef)
    requires b < c <= |u| && u[b] == '/' && u[b + 1..c] == r.repo && u[c..|u|] == ContentsTail(r)
    ensures u[b..|u|] == ApiRepoTail(r)
  {
    Glue(u, b + 1, c, |u|, r.repo, ContentsTail(r));
    CharSlice(u, b, '/');
    Glue(u, b, b + 1, |u|, "/", r.repo + ContentsTail(r));
  }

  /** The base and the owner in front of `ApiRepoTail` spell the whole API URL. */
  lemma ApiOwnerSpelled(u: string, b: nat, r: RepoFileRef)
    requires |ApiBase| <= b <= |u| && LiteralAt(u, 0, ApiBase)
    requires u[|ApiBase|..b] == r.owner && u[b..|u|] == ApiRepoTail(r)
    ensures u == ApiUrl(r)
  {
    Glue(u, |ApiBase|, b, |u|, r.owner, ApiRepoTail(r));
    Glue(u, 0, |ApiBase|, |u|, ApiBase, r.owner + ApiRepoTail(r));
    assert u == u[0..|u|];
  }

  /** What `SplitApiUrl` reads out of a URL builds that URL back. */
  lemma SplitApiUrlRebuilds(u: string, r: RepoFileRef)
    requires SplitApiUrl(u) == Some(r)
    ensures ApiUrl(r) == u
  {
    var b, c, e := SplitBounds(u, r);
    QuerySpelled(u, e, r);
    ContentsSpelled(u, c, e, r);
    ApiRepoSpelled(u, b, c, r);
    ApiOwnerSpelled(u, b, r);
  }

  /** What `SplitApiUrl` reads out are captures a blob URL can produce, with a path free of `?`. */
  lemma SplitApiUrlWellFormed(u: string, r: RepoFileRef)
    requires SplitApiUrl(u) == Some(r)
    ensures WellFormed(r) && '?' !in r.path
  {
    var b, c, e := SplitBounds(u, r);
    BoundsWellFormed(u, b, c, e, r);
  }

  /** The cuts `SplitBounds` finds leave `/`-free owner and repo groups and a `?`-free path. */
  lemma BoundsWellFormed(u: string, b: nat, c: nat, e: nat, r: RepoFileRef)
    requires |ApiBase| < b && b + 1 < c && c + |ContentsSeparator| <= e && e + |RefQuery| <= |u|
    requires SegmentEnd(u, |ApiBase|) == Some(b) && SegmentEnd(u, b + 1) == Some(c)
    requires e == FirstFrom(u, c + |ContentsSeparator|, '?')
    requires r == RepoFileRef(u[|ApiBase|..b], u[b + 1..c], u[e + |RefQuery|..], u[c + |ContentsSeparator|..e])
    requires Segment(r.ref) && '\n' !in r.path
    ensures WellFormed(r) && '?' !in r.path
  {
    SegmentEndClean(u, |ApiBase|);
    SegmentEndClean(u, b + 1);
    BeforeFirst(u, c + |ContentsSeparator|, '?');
    CutsWellFormed(u, b, c, e, r);
  }

  /** Captures cut between group ends, with a path before the first `?`, have the properties `SplitApiUrl` promises. */
  lemma CutsWellFormed(u: string, b: nat, c: nat, e: nat, r: RepoFileRef)
    requires |ApiBase| < b && b + 1 < c && c + |ContentsSeparator| <= e <= |u|
    requires '/' !in u[|ApiBase|..b] && '/' !in u[b + 1..c] && '?' !in u[c + |ContentsSeparator|..e]
    requires r.owner == u[|ApiBase|..b] && r.repo == u[b + 1..c] && r.path == u[c + |ContentsSeparator|..e]
    requires Segment(r.ref) && '\n' !in r.path
    ensures WellFormed(r) && '?' !in r.path
  {
  }

  /** An API URL opens with the base and the owner group; the rest spells `ApiRepoTail`. */
  lemma ApiOwnerPart(u: string, r: RepoFileRef)
    requires u == ApiUrl(r) && Segment(r.owner)
    ensures var b := |ApiBase| + |r.owner|;
            b < |u| && LiteralAt(u, 0, ApiBase) && u[|ApiBase|..b] == r.owner && u[b..|u|] == ApiRepoTail(r) &&
            SegmentEnd(u, |ApiBase|) == Some(b)
  {
    var b := |ApiBase| + |r.owner|;
    assert u[0..|u|] == u;
    Peel(u, 0, |u|, ApiBase, r.owner + ApiRepoTail(r));
    Peel(u, |ApiBase|, |u|, r.owner, ApiRepoTail(r));
    assert u[b] == u[b..|u|][0];
    SegmentEndOf(u, |ApiBase|, r.owner);
  }

  /** A slice spelling `ApiRepoTail` opens with `/` and the repository group; the rest spells `ContentsTail`. */
  lemma ApiRepoPart(u: string, b: nat, r: RepoFileRef)
    requires b <= |u| && u[b..|u|] == ApiRepoTail(r) && Segment(r.repo)
    ensures var c := b + 1 + |r.repo|;
            c < |u| && u[b + 1..c] == r.repo && u[c..|u|] == ContentsTail(r) && SegmentEnd(u, b + 1) == Some(c)
  {
    var c := b + 1 + |r.repo|;
    Peel(u, b, |u|, "/", r.repo + ContentsTail(r));
    Peel(u, b + 1, |u|, r.repo, ContentsTail(r));
    assert u[c] == u[c..|u|][0];
    SegmentEndOf(u, b + 1, r.repo);
  }

  /** A slice spelling `ContentsTail` opens with `/contents/`; a path without `?` ends where `?ref=` starts. */
  lemma ContentsPart(u: string, c: nat, r: RepoFileRef)
    requires c <= |u| && u[c..|u|] == ContentsTail(r) && '?' !in r.path
    ensures var e := c + |ContentsSeparator| + |r.path|;
            e + |RefQuery| <= |u| && LiteralAt(u, c, ContentsSeparator) &&
            u[c + |ContentsSeparator|..e] == r.path && u[e..|u|] == QueryTail(r) &&
            FirstFrom(u, c + |ContentsSeparator|, '?') == e
  {
    var e := c + |ContentsSeparator| + |r.path|;
    Peel(u, c, |u|, ContentsSeparator, r.path + QueryTail(r));
    Peel(u, c + |ContentsSeparator|, |u|, r.path, QueryTail(r));
    assert u[e] == u[e..|u|][0];
    FirstFromUnique(u, c + |ContentsSeparator|, '?', e);
  }

  /** A slice spelling `QueryTail` opens with `?ref=`, and the ref runs to the end. */
  lemma QueryPart(u: string, e: nat, r: RepoFileRef)
    requires e <= |u| && u[e..|u|] == QueryTail(r)
    ensures e + |RefQuery| <= |u| && LiteralAt(u, e, RefQuery) && u[e + |RefQuery|..] == r.ref
  {
    Peel(u, e, |u|, RefQuery, r.ref);
    assert u[e + |RefQuery|..] == u[e + |RefQuery|..|u|];
  }

  /** Once `/contents/` stands at `c`, a slice spelling `ContentsTail` is read back into the captures. */
  lemma SplitQueryOf(u: string, b: nat, c: nat, r: RepoFileRef)
    requires |ApiBase| < b && b + 1 < c <= |u|
    requires u[|ApiBase|..b] == r.owner && u[b + 1..c] == r.repo && u[c..|u|] == ContentsTail(r)
    requires Segment(r.ref) && '\n' !in r.path && '?' !in r.path
    ensures c + |ContentsSeparator| <= |u| && LiteralAt(u, c, ContentsSeparator) && SplitQuery(u, b, c) == Some(r)
  {
    ContentsPart(u, c, r);
    QueryPart(u, c + |ContentsSeparator| + |r.path|, r);
  }

  /** Once the owner ends at `b`, a slice spelling `ApiRepoTail` is read back into the captures. */
  lemma SplitRepoOf(u: string, b: nat, r: RepoFileRef)
    requires |ApiBase| < b <= |u| && u[|ApiBase|..b] == r.owner && u[b..|u|] == ApiRepoTail(r)
    requires Segment(r.repo) && Segment(r.ref) && '\n' !in r.path && '?' !in r.path
    ensures b < |u| && SplitRepo(u, b) == Some(r)
  {
    ApiRepoPart(u, b, r);
    var c := b + 1 + |r.repo|;
    SplitQueryOf(u, b, c, r);
    assert SegmentEnd(u, b + 1) == Some(c);
    assert LiteralAt(u, c, ContentsSeparator);
    assert SplitQuery(u, b, c) == Some(r);
  }

  /**
   * Round trip: `SplitApiUrl` reads back exactly the captures an API URL was
   * built from, whenever they are ones a blob URL can produce and the path
   * holds no `?`.
   */
  lemma ApiUrlRoundTrip(r: RepoFileRef)
    requires WellFormed(r) && '?' !in r.path
    ensures SplitApiUrl(ApiUrl(r)) == Some(r)
  {
    var u := ApiUrl(r);
    ApiOwnerPart(u, r);
    SplitRepoOf(u, |ApiBase| + |r.owner|, r);
  }

  /**
   * `SplitApiUrl` inverts `ApiUrl` on its whole domain: it returns `r` exactly
   * when `u` is the API URL of `r` and `r` has the two properties above.
   */
  lemma SplitApiUrlIff(u: string, r: RepoFileRef)
    ensures SplitApiUrl(u) == Some(r) <==> u == ApiUrl(r) && WellFormed(r) && '?' !in r.path
  {
    if SplitApiUrl(u) == Some(r) {
      SplitApiUrlRebuilds(u, r);
      SplitApiUrlWellFormed(u, r);
    }
    if u == ApiUrl(r) && WellFormed(r) && '?' !in r.path {
      ApiUrlRoundTrip(r);
    }
  }

  /** On captures with a path free of `?`, different captures give different API URLs. */
  lemma ApiUrlInjective(r1: RepoFileRef, r2: RepoFileRef)
    requires WellFormed(r1) && '?' !in r1.path
    requires WellFormed(r2) && '?' !in r2.path
    requires ApiUrl(r1) == ApiUrl(r2)
    ensures r1 == r2
  {
    ApiUrlRoundTrip(r1);
    ApiUrlRoundTrip(r2);
  }

  /**
   * Without that condition the captures are inserted verbatim and can collide:
   * a path `a?ref=b` with ref `c` gives the URL of path `a` with ref `b?ref=c`.
   */
  lemma ApiUrlAmbiguous(owner: string, repo: string)
    ensures ApiUrl(RepoFileRef(owner, repo, "c", "a?ref=b")) == ApiUrl(RepoFileRef(owner, repo, "b?ref=c", "a"))
  {
    var r1 := RepoFileRef(owner, repo, "c", "a?ref=b");
    var r2 := RepoFileRef(owner, repo, "b?ref=c", "a");
    assert r1.path + QueryTail(r1) == r2.path + QueryTail(r2);
    assert ContentsTail(r1) == ContentsTail(r2);
  }

  // ---------------------------------------------------------------------------
  // The Authorization header.
  // ---------------------------------------------------------------------------

  /** Reads the token back out of an Authorization header value. */
  function TokenOf(h: string): Option<string> {
    if |h| >= 6 && h[..6] == "token " then Some(h[6..]) else None
  }

  /** The header value is `token ` followed by the token, verbatim: reading it back gives the token. */
  lemma HeaderRoundTrip(token: string)
    ensures TokenOf(AuthorizationHeader(token)) == Some(token)
  {
    var h := AuthorizationHeader(token);
    assert h[..6] == "token ";
    assert h[6..] == token;
  }

  /** A header value carries a token exactly when it is the header built from that token. */
  lemma HeaderIff(h: string, token: string)
    ensures TokenOf(h) == Some(token) <==> h == AuthorizationHeader(token)
  {
    if TokenOf(h) == Some(token) {
      assert h == h[..6] + h[6..];
    }
    if h == AuthorizationHeader(token) {
      HeaderRoundTrip(token);
    }
  }

  // ---------------------------------------------------------------------------
  // The status gate and the download.
  // ---------------------------------------------------------------------------

  /** An HTTP status code: three digits. */
  type StatusCode = x: int | 100 <= x <= 999 witness 200

  /** A success status: one in 200-299. */
  predicate IsSuccess(status: StatusCode) {
    200 <= status <= 299
  }

  /** The success statuses are exactly those of class 2, the ones whose first digit is 2. */
  lemma SuccessIsClassTwo(status: StatusCode)
    ensures IsSuccess(status) <==> status / 100 == 2
  {
    if status / 100 == 2 {
      assert 200 <= status;
    }
  }

  /** The GET request sent: its URL and the value of its Authorization header. */
  datatype Request = Request(url: string, authorization: string)

  /** The answer: its status, and its body unless reading the body fails. */
  datatype Response = Response(status: StatusCode, body: Option<string>)

  /** The request for a blob URL and a token, or the parse error. */
  function RequestFor(url: string, token: string): Result<Request> {
    match Parse(url)
    case Err(e) => Err(e)
    case Ok(r) => Ok(Request(ApiUrl(r), AuthorizationHeader(token)))
  }

  /**
   * The exchange once the request is built: send it, refuse a status outside
   * 2xx before the body is read, then decode the body. `send` returns `None`
   * when the request fails below HTTP, and a response's body is `None` when
   * reading it fails.
   */
  function Fetch<J>(req: Request, send: Request -> Option<Response>, decode: string -> Option<J>): Result<J> {
    match send(req)
    case None => Err(TransportError)
    case Some(resp) =>
      if !IsSuccess(resp.status) then Err(RequestFailed(resp.status))
      else
        match resp.body
        case None => Err(TransportError)
        case Some(text) =>
          match decode(text)
          case None => Err(DecodeError)
          case Some(j) => Ok(j)
  }

  /** The whole download: parse the URL and build the request, then fetch. */
  function Download<J>(url: string, token: string, send: Request -> Option<Response>,
                       decode: string -> Option<J>): Result<J>
  {
    match RequestFor(url, token)
    case Err(e) => Err(e)
    case Ok(req) => Fetch(req, send, decode)
  }

  /** The request for a parsed blob URL goes to the API URL of its captures, with the token header. */
  lemma RequestForParsed(url: string, token: string)
    ensures Parse(url).Err? ==> RequestFor(url, token) == Err(MalformedUrl)
    ensures Parse(url).Ok? ==>
              RequestFor(url, token) == Ok(Request(ApiUrl(Parse(url).value), "token " + token))
  {
  }

  /** The blob URL of a file asks for the API URL of that file. */
  lemma RequestForBlobUrl(r: RepoFileRef, token: string)
    requires WellFormed(r)
    ensures RequestFor(BlobUrlOf(r), token) == Ok(Request(ApiUrl(r), AuthorizationHeader(token)))
  {
    BlobUrlRoundTrip(r);
  }

  /** The only request a fetch sends is the one it is given: other answers do not matter. */
  lemma FetchSendsOnly<J>(req: Request, send: Request -> Option<Response>, send': Request -> Option<Response>,
                          decode: string -> Option<J>)
    requires send(req) == send'(req)
    ensures Fetch(req, send, decode) == Fetch(req, send', decode)
  {
  }

  /**
   * The status gate: a status outside 2xx fails with that status, whatever
   * the body, and the body is never decoded.
   */
  lemma FetchStatusGate<J>(req: Request, send: Request -> Option<Response>,
                           decode: string -> Option<J>, decode': string -> Option<J>)
    requires send(req).Some? && !IsSuccess(send(req).value.status)
    ensures Fetch(req, send, decode) == Err(RequestFailed(send(req).value.status))
    ensures Fetch(req, send, decode) == Fetch(req, send, decode')
  {
  }

  /** A fetch succeeds exactly when every step does: a 2xx answer with a body that decodes. */
  lemma FetchOkIff<J>(req: Request, send: Request -> Option<Response>, decode: string -> Option<J>, j: J)
    ensures Fetch(req, send, decode) == Ok(j) <==>
            send(req).Some? && IsSuccess(send(req).value.status) && send(req).value.body.Some? &&
            decode(send(req).value.body.value) == Some(j)
  {
  }

  /** A `RequestFailed` error always carries a status outside 2xx, and a fetch never reports a malformed URL. */
  lemma FetchErrors<J>(req: Request, send: Request -> Option<Response>, decode: string -> Option<J>)
    ensures Fetch(req, send, decode) != Err(MalformedUrl)
    ensures var f := Fetch(req, send, decode);
            f.Err? && f.error.RequestFailed? ==> 100 <= f.error.status <= 999 && !(200 <= f.error.status <= 299)
  {
  }

  /** A transport error comes from a request that got no answer, or from a 2xx answer whose body could not be read. */
  lemma FetchTransportIff<J>(req: Request, send: Request -> Option<Response>, decode: string -> Option<J>)
    ensures Fetch(req, send, decode) == Err(TransportError) <==>
            send(req).None? || (IsSuccess(send(req).value.status) && send(req).value.body.None?)
  {
  }

  /** A decoding error comes exactly from a 2xx answer whose body was read but does not decode. */
  lemma FetchDecodeIff<J>(req: Request, send: Request -> Option<Response>, decode: string -> Option<J>)
    ensures Fetch(req, send, decode) == Err(DecodeError) <==>
            send(req).Some? && IsSuccess(send(req).value.status) && send(req).value.body.Some? &&
            decode(send(req).value.body.value).None?
  {
  }

  /** A URL that does not parse fails with `MalformedUrl`, and nothing is sent. */
  lemma DownloadMalformed<J>(url: string, token: string, send: Request -> Option<Response>, decode: string -> Option<J>)
    requires Parse(url).Err?
    ensures Download(url, token, send, decode) == Err(MalformedUrl)
  {
    RequestForParsed(url, token);
  }

  /** A URL that parses is fetched with the API URL of its captures and the token header. */
  lemma DownloadFetches<J>(url: string, token: string, send: Request -> Option<Response>, decode: string -> Option<J>)
    requires Parse(url).Ok?
    ensures Download(url, token, send, decode)
            == Fetch(Request(ApiUrl(Parse(url).value), AuthorizationHeader(token)), send, decode)
  {
    RequestForParsed(url, token);
  }

  /**
   * The request built for a URL is the one for the captures of its leftmost
   * match: the API URL of those captures and the token header.
   */
  lemma RequestForLeftmost(url: string, token: string, i: nat, r: RepoFileRef)
    requires MatchesAt(url, i, r)
    requires forall j: nat, r' :: j < i ==> !MatchesAt(url, j, r')
    ensures RequestFor(url, token) == Ok(Request(ApiUrl(r), AuthorizationHeader(token)))
  {
    ParseLeftmost(url, i, r);
  }

  /** A URL whose leftmost match has captures `r` is downloaded by fetching the API URL of `r`. */
  lemma DownloadLeftmost<J>(url: string, token: string, send: Request -> Option<Response>,
                            decode: string -> Option<J>, i: nat, r: RepoFileRef)
    requires MatchesAt(url, i, r)
    requires forall j: nat, r' :: j < i ==> !MatchesAt(url, j, r')
    ensures Download(url, token, send, decode) == Fetch(Request(ApiUrl(r), AuthorizationHeader(token)), send, decode)
  {
    ParseLeftmost(url, i, r);
    DownloadFetches(url, token, send, decode);
  }

  /** The download fails with `MalformedUrl` exactly when the URL does not parse. */
  lemma DownloadMalformedIff<J>(url: string, token: string, send: Request -> Option<Response>,
                                decode: string -> Option<J>)
    ensures Download(url, token, send, decode) == Err(MalformedUrl) <==> Parse(url).Err?
  {
    if Parse(url).Ok? {
      var req := Request(ApiUrl(Parse(url).value), AuthorizationHeader(token));
      DownloadFetches(url, token, send, decode);
      FetchErrors(req, send, decode);
    } else {
      DownloadMalformed(url, token, send, decode);
    }
  }
}
