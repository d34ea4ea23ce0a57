# get-repo-files: the blob-URL resolver and the Contents API request

`get-repo-files` downloads a file's metadata from a GitHub repository. It is
given the browser URL of the file (a "blob" URL such as
`https://github.com/{owner}/{repo}/blob/{ref}/{path}`) and a personal access
token. Its `download_from_github` then does four things:

- it extracts owner, repository, ref and path with an unanchored regular-expression search;
- it rewrites them into a Contents API URL;
- it sends a GET request with an `Authorization: token …` header;
- it refuses any status outside 2xx, then decodes the body as JSON.

This project models that function as pure Dafny functions and proves what
each step promises. The source has no loops and no mutable state in that part.

- `errors.dfy` (module `Errors`) holds the error conditions of the function and
  small `Option`/`Result` datatypes:
  - an unparseable URL;
  - a failure below HTTP;
  - a refused status, which carries that status;
  - a body that is not JSON.
- `text.dfy` (module `Text`) holds `FirstFrom`, the first position of a
  character at or after a start, plus slicing lemmas.
- `blob_url.dfy` (module `BlobUrl`) is the URL resolver. The pattern
  `github\.com/([^/]+)/([^/]+)/blob/([^/]+)/(.*)` is written out as a parser:
  - `MatchAt` tries one start position;
  - `Search` tries the starts from left to right;
  - `Parse` returns the captures of the leftmost match or `MalformedUrl`.
  - In the regex dialect, `[^/]` matches a newline but `.` does not. So
    owner, repo and ref run to the next `/`, and the path runs to the end of
    the input or to the first newline.
  - The parser is proved equal to a declarative reference, `MatchesAt`:
    "the text at `i` spells the four captures, with the group shapes above".
    The partners cover the leftmost rule, the failure condition and the
    round trip with the blob-URL builder `BlobUrlOf`.
- `contents_api.dfy` (module `ContentsApi`) holds the request side:
  - `ApiUrl` (verbatim concatenation, no percent-encoding) with its partner
    `SplitApiUrl`, which inverts it on well-formed captures whose path holds
    no `?` (`SplitApiUrlIff`);
  - `AuthorizationHeader` with its partner `TokenOf`;
  - the status gate `IsSuccess`;
  - `RequestFor` and `Fetch`, and `Download`, which composes them.
  - The HTTP exchange and the JSON decoder are the parameters `send` and
    `decode` of `Fetch` and `Download`.

A blob URL normally names a file, but `(.*)` (src/main.rs:57) also accepts an
empty path, as in `…/blob/main/`. So `WellFormed` requires owner, repo and ref
to be non-empty and free of `/`, and requires only that the path holds no
newline.

## Model

| member | source | states |
|---|---|---|
| BlobUrl.SegmentEnd | src/main.rs:57 | when a `[^/]+` group closes, it closes on a `/` at least one character after its start |
| BlobUrl.MatchAt | src/main.rs:57 | the captures of the pattern at one start position: `github.com/`, then each `[^/]+` group up to the next `/`, the literal `/blob/` after the repo, and the path up to the end or the first newline; `None` when any part is missing |
| BlobUrl.MatchAtComplete | src/main.rs:57 | the match at start `i` yields `r` if and only if the text at `i` spells `github.com/`, owner, `/`, repo, `/blob/`, ref, `/`, path, with owner, repo and ref non-empty and `/`-free, and the path running to the end or to a newline |
| BlobUrl.MatchAtSound | src/main.rs:57 | a match found at a start satisfies the reference `MatchesAt` |
| BlobUrl.MatchAtWellFormed | src/main.rs:57 | a match's owner, repo and ref are non-empty and `/`-free, and its path has no newline |
| BlobUrl.Search | src/main.rs:58 | the unanchored search of `Regex::captures`: the first start position, from left to right, at which `MatchAt` succeeds, with its captures |
| BlobUrl.SearchFound | src/main.rs:58 | a successful search reports a start at or after where it began, and the match at that start |
| BlobUrl.SearchLeftmost | src/main.rs:58 | no start before the reported one (or none at all, if the search fails) has a match |
| BlobUrl.Parse | src/main.rs:57-66 | on success the four captures are well formed; every failure is `MalformedUrl` |
| BlobUrl.ParseSound | src/main.rs:57-66 | on success the captures are those the reference gives at the reported start, and no earlier start matches anything |
| BlobUrl.ParseLeftmost | src/main.rs:57-58 | if the reference matches `r` at `i` and nothing matches earlier, `Parse` returns exactly `r` |
| BlobUrl.ParseFailsIffNoMatch | src/main.rs:58-61 | `Parse` fails if and only if no start position matches any captures |
| BlobUrl.NoHostFails | src/main.rs:58-61 | an input that never contains `github.com/` fails with `MalformedUrl` |
| BlobUrl.PrefixMatches | src/main.rs:57-58 | in front of a text, a prefix that contains no `g` adds no matches and shifts the existing ones by its length |
| BlobUrl.ParseIgnoresPrefix | src/main.rs:57-58 | putting such a prefix (a scheme, say) in front of the input does not change the result |
| BlobUrl.ParseRendered | src/main.rs:57-66 | well-formed captures, spelled after such a prefix and followed by end of input or a newline, come back from `Parse` exactly |
| BlobUrl.BlobUrlRoundTrip | src/main.rs:57-66 | `Parse(BlobUrlOf(r)) == Ok(r)` for every well-formed `r` |
| BlobUrl.SchemeIgnored | src/main.rs:57-58 | with `http://` or with no scheme at all, the same captures come back |
| BlobUrl.PathEndsAtNewline | src/main.rs:57 | the path stops at the first newline; whatever follows it, even another blob URL, is ignored |
| BlobUrl.RefEndsAtFirstSlash | src/main.rs:57 | a branch `ref1/ref2` is captured as ref `ref1`, and `ref2/` goes in front of the path |
| ContentsApi.ApiUrl | src/main.rs:68 | the `format!` string of line 68: `https://api.github.com/repos/`, owner, `/`, repo, `/contents/`, path, `?ref=`, ref, each capture inserted verbatim in that order |
| ContentsApi.ApiUrlRoundTrip | src/main.rs:68 | for well-formed captures whose path has no `?`, splitting the API URL gives back the captures |
| ContentsApi.SplitApiUrlIff | src/main.rs:68 | a URL splits into `r` if and only if it is `ApiUrl(r)` with `r` well formed and its path free of `?` |
| ContentsApi.ApiUrlInjective | src/main.rs:68 | on those captures, different captures give different API URLs |
| ContentsApi.ApiUrlAmbiguous | src/main.rs:68 | because components are inserted verbatim, path `a?ref=b` with ref `c` and path `a` with ref `b?ref=c` give the same URL |
| ContentsApi.AuthorizationHeader | src/main.rs:71 | the Authorization value of line 71: `token ` followed by the token, verbatim |
| ContentsApi.HeaderRoundTrip | src/main.rs:71 | the header value is `token ` and then the token, verbatim: reading it back gives the token |
| ContentsApi.HeaderIff | src/main.rs:71 | a header value carries a given token if and only if it is the header built from that token |
| ContentsApi.IsSuccess | src/main.rs:76 | `is_success`: the status lies in 200-299 |
| ContentsApi.SuccessIsClassTwo | src/main.rs:76 | a status is a success if and only if it is of class 2 (200-299) |
| ContentsApi.RequestFor | src/main.rs:57-71 | the request of lines 57-71: `MalformedUrl` when the URL does not parse, otherwise a GET of `ApiUrl` of the captures with the `AuthorizationHeader` of the token |
| ContentsApi.RequestForLeftmost | src/main.rs:57-71 | when the leftmost match of the URL has captures `r`, the request goes to `ApiUrl(r)` with the header `token ` and the token |
| ContentsApi.RequestForBlobUrl | src/main.rs:57-71 | the blob URL of well-formed captures leads to the API URL of those same captures |
| ContentsApi.Fetch | src/main.rs:73-84 | the exchange of lines 73-84: send the request (`TransportError` without an answer), refuse a status outside 2xx with `RequestFailed` and that status, read the body (`TransportError` on failure), decode it (`DecodeError` on failure) |
| ContentsApi.FetchSendsOnly | src/main.rs:69-73 | the fetch depends only on the answer to the one request it is given |
| ContentsApi.FetchStatusGate | src/main.rs:76-84 | a status outside 2xx fails with that status, and the result does not depend on the decoder (the body is never decoded) |
| ContentsApi.FetchOkIff | src/main.rs:73-84 | a fetch yields `j` if and only if the request gets an answer, the status is 2xx, the body is read and it decodes to `j` |
| ContentsApi.FetchErrors | src/main.rs:73-84 | a fetch never reports a malformed URL, and a refused status is always a code outside 200-299 |
| ContentsApi.FetchTransportIff | src/main.rs:73-83 | a fetch fails with `TransportError` if and only if the request gets no answer, or the answer is 2xx and its body cannot be read |
| ContentsApi.FetchDecodeIff | src/main.rs:83-84 | a fetch fails with `DecodeError` if and only if the answer is 2xx, its body is read, and the body does not decode |
| ContentsApi.Download | src/main.rs:55-89 | `download_from_github`: build the request with `RequestFor`, then `Fetch` it, returning the decoded value |
| ContentsApi.DownloadMalformed | src/main.rs:58-61 | when the URL does not parse, the download fails with `MalformedUrl` whatever `send` would answer |
| ContentsApi.DownloadLeftmost | src/main.rs:57-84 | when the leftmost match of the URL has captures `r`, the download is the fetch of `ApiUrl(r)` with the token header |
| ContentsApi.DownloadMalformedIff | src/main.rs:58-84 | the download fails with `MalformedUrl` if and only if the URL does not parse |

## Left out

- Command-line parsing and the prompt fallback, including reading stdin and trimming the input (src/main.rs:10-48). These are I/O and library behaviour; the model starts from the URL and token strings.
- The HTTP client, `send` and the reading of the body (src/main.rs:69-73, 83). These are network calls on an async runtime. `Fetch` and `Download` take the exchange as the parameter `send`: `None` stands for a transport failure, and a response body of `None` stands for a failed body read.
- JSON decoding (src/main.rs:84). This is a foreign library, so it is the parameter `decode`, and `None` stands for a decoding error.
- Printing the decoded JSON (src/main.rs:86). `Download` returns the decoded value instead.
- The text of the error messages, including how the status is displayed (src/main.rs:60, 79). `RequestFailed` carries the status code itself.
- Error boxing (`Box<dyn Error>`). It is replaced by the `Error` datatype.
- The regular-expression library. Its behaviour on this one pattern is written out as `MatchAt` and `Search`.
- The parsing of the API URL by the HTTP client (src/main.rs:70). `Request.url` is the string as built. The client reads a `#` in a capture, such as the `#L10` of a line link, as the start of a fragment, which is never sent. The `?ref=…` query then falls inside that fragment and the ref is lost. The model does not show this.
- The GET method and the rest of the HTTP request. `Request` records only the URL and the Authorization value, because the code sets nothing else.
