/**
 * The URL resolver: the capture of the pattern
 *   github\.com/([^/]+)/([^/]+)/blob/([^/]+)/(.*)
 * searched for anywhere in the input, written out as an explicit parser.
 *
 * In the pattern's regular-expression dialect a negated class `[^/]` matches
 * every character but `/` (a newline included), while `.` matches every
 * character but a newline. Each `[^/]+` group is followed by a `/`, so it
 * must stop at the first `/`; `(.*)` is greedy and stops at the first newline.
 * The match at a given start is therefore unique, and the search returns the
 * one with the leftmost start.
 */
module BlobUrl {
  import opened Errors
  import opened Text

  /** The literal that opens every match. */
  const Host: string := "github.com/"
  /** The literal between the repository and the ref. */
  const BlobSeparator: string := "/blob/"

  /** The four captures of a successful match. */
  datatype RepoFileRef = RepoFileRef(owner: string, repo: string, ref: string, path: string)

  /** A capture of a `[^/]+` group. */
  predicate Segment(x: string) {
    |x| > 0 && '/' !in x
  }

  /** The captures a match can produce: three segments and a path without a newline. */
  predicate WellFormed(r: RepoFileRef) {
    Segment(r.owner) && Segment(r.repo) && Segment(r.ref) && '\n' !in r.path
  }

  /** `/{path}` */
  function PathTail(r: RepoFileRef): string {
    "/" + r.path
  }

  /** `/blob/{ref}/{path}` */
  function RefTail(r: RepoFileRef): string {
    BlobSeparator + (r.ref + PathTail(r))
  }

  /** `/{repo}/blob/{ref}/{path}` */
  function RepoTail(r: RepoFileRef): string {
    "/" + (r.repo + RefTail(r))
  }

  /** The text a match with captures `r` spans: `github.com/{owner}/{repo}/blob/{ref}/{path}`. */
  function Render(r: RepoFileRef): string {
    Host + (r.owner + RepoTail(r))
  }

  /** The blob URL a browser shows for a file: the matched text behind an https scheme. */
  function BlobUrlOf(r: RepoFileRef): string {
    "https://" + Render(r)
  }

  /**
   * The meaning of the pattern: at start `i` the input spells `Render(r)`, the
   * captures are ones the groups can take, and the greedy `(.*)` could not
   * have taken one more character.
   */
  predicate MatchesAt(s: string, i: nat, r: RepoFileRef) {
    var n := i + |Render(r)|;
    WellFormed(r) && n <= |s| && s[i..n] == Render(r) && (n == |s| || s[n] == '\n')
  }

  /** The literal `lit` stands in `s` at offset `i`. */
  predicate LiteralAt(s: string, i: nat, lit: string) {
    i + |lit| <= |s| && s[i..i + |lit|] == lit
  }

  /**
   * Where a `[^/]+` group that starts at `from` and is followed by `/` ends:
   * the first `/` after a non-empty run, if there is one.
   */
  function SegmentEnd(s: string, from: nat): (k: Option<nat>)
    requires from <= |s|
    ensures k.Some? ==> from < k.value < |s| && s[k.value] == '/'
  {
    var k := FirstFrom(s, from, '/');
    if k == from || k == |s| then None else Some(k)
  }

  /** A group found by `SegmentEnd` holds no `/`. */
  lemma SegmentEndClean(s: string, from: nat)
    requires from <= |s| && SegmentEnd(s, from).Some?
    ensures '/' !in s[from..SegmentEnd(s, from).value]
  {
    BeforeFirst(s, from, '/');
  }

  /** A non-empty run without `/` that ends in `/` is found by `SegmentEnd`. */
  lemma SegmentEndAt(s: string, from: nat, k: nat)
    requires from < k < |s| && s[k] == '/'
    requires '/' !in s[from..k]
    ensures SegmentEnd(s, from) == Some(k)
  {
    FirstFromUnique(s, from, '/', k);
  }

  /** The match of the pattern that starts exactly at `i`, if there is one. */
  function MatchAt(s: string, i: nat): (m: Option<RepoFileRef>)
    requires i <= |s|
  {
    if !LiteralAt(s, i, Host) then None else MatchOwner(s, i)
  }

  /** The rest of a match at `i` once `github.com/` is seen: the owner group and its `/`. */
  function MatchOwner(s: string, i: nat): Option<RepoFileRef>
    requires i + |Host| <= |s|
  {
    match SegmentEnd(s, i + |Host|)
    case None => None
    case Some(b) => MatchRepo(s, i, b)
  }

  /** The rest once the owner ends at `b`: the repository group and `/blob/`. */
  function MatchRepo(s: string, i: nat, b: nat): Option<RepoFileRef>
    requires i + |Host| < b < |s|
  {
    match SegmentEnd(s, b + 1)
    case None => None
    case Some(c) => if !LiteralAt(s, c, BlobSeparator) then None else MatchRef(s, i, b, c)
  }

  /** The rest once `/blob/` stands at `c`: the ref group, its `/`, and the path up to a newline. */
  function MatchRef(s: string, i: nat, b: nat, c: nat): Option<RepoFileRef>
    requires i + |Host| < b < c && c + |BlobSeparator| <= |s|
  {
    match SegmentEnd(s, c + |BlobSeparator|)
    case None => None
    case Some(d) => Some(Captures(s, i, b, c, d))
  }

  /** The four captures once the groups are known to end at `b`, `c` and `d`; the path runs to the first newline. */
  function Captures(s: string, i: nat, b: nat, c: nat, d: nat): RepoFileRef
    requires i + |Host| < b < c && c + |BlobSeparator| < d < |s|
  {
    RepoFileRef(s[i + |Host|..b], s[b + 1..c], s[c + |BlobSeparator|..d], s[d + 1..FirstFrom(s, d + 1, '\n')])
  }

  // ---------------------------------------------------------------------------
  // MatchAt is sound and complete for MatchesAt.
  // ---------------------------------------------------------------------------

  /** What `MatchAt` has seen when it succeeds: both literals, the three group ends, and the captures they cut. */
  lemma MatchAtBounds(s: string, i: nat) returns (b: nat, c: nat, d: nat)
    requires i <= |s| && MatchAt(s, i).Some?
    ensures i + |Host| < b && b + 1 < c && c + |BlobSeparator| < d < |s|
    ensures LiteralAt(s, i, Host) && SegmentEnd(s, i + |Host|) == Some(b)
    ensures SegmentEnd(s, b + 1) == Some(c) && LiteralAt(s, c, BlobSeparator)
    ensures SegmentEnd(s, c + |BlobSeparator|) == Some(d)
    ensures MatchAt(s, i) == Some(Captures(s, i, b, c, d))
  {
    b := SegmentEnd(s, i + |Host|).value;
    c := SegmentEnd(s, b + 1).value;
    d := SegmentEnd(s, c + |BlobSeparator|).value;
  }

  /** Captures cut at group ends are ones the groups of the pattern can take. */
  lemma CapturesWellFormed(s: string, i: nat, b: nat, c: nat, d: nat)
    requires i + |Host| < b && b + 1 < c && c + |BlobSeparator| < d < |s|
    requires '/' !in s[i + |Host|..b] && '/' !in s[b + 1..c] && '/' !in s[c + |BlobSeparator|..d]
    ensures WellFormed(Captures(s, i, b, c, d))
  {
    BeforeFirst(s, d + 1, '\n');
  }

  /** `/` followed by the path spells `PathTail`. */
  lemma PathSpelled(s: string, d: nat, e: nat, r: RepoFileRef)
    requires d < e <= |s| && s[d] == '/' && s[d + 1..e] == r.path
    ensures s[d..e] == PathTail(r)
  {
    CharSlice(s, d, '/');
    Glue(s, d, d + 1, e, "/", r.path);
  }

  /** `/blob/` and the ref in front of `PathTail` spell `RefTail`. */
  lemma RefSpelled(s: string, c: nat, d: nat, e: nat, r: RepoFileRef)
    requires c + |BlobSeparator| <= d <= e <= |s| && LiteralAt(s, c, BlobSeparator)
    requires s[c + |BlobSeparator|..d] == r.ref && s[d..e] == PathTail(r)
    ensures s[c..e] == RefTail(r)
  {
    Glue(s, c + |BlobSeparator|, d, e, r.ref, PathTail(r));
    Glue(s, c, c + |BlobSeparator|, e, BlobSeparator, r.ref + PathTail(r));
  }

  /** `/` and the repository in front of `RefTail` spell `RepoTail`. */
  lemma RepoSpelled(s: string, b: nat, c: nat, e: nat, r: RepoFileRef)
    requires b < c <= e <= |s| && s[b] == '/' && s[b + 1..c] == r.repo && s[c..e] == RefTail(r)
    ensures s[b..e] == RepoTail(r)
  {
    Glue(s, b + 1, c, e, r.repo, RefTail(r));
    CharSlice(s, b, '/');
    Glue(s, b, b + 1, e, "/", r.repo + RefTail(r));
  }

  /** `github.com/` and the owner in front of `RepoTail` spell the whole matched text. */
  lemma OwnerSpelled(s: string, i: nat, b: nat, e: nat, r: RepoFileRef)
    requires i + |Host| <= b <= e <= |s| && LiteralAt(s, i, Host)
    requires s[i + |Host|..b] == r.owner && s[b..e] == RepoTail(r)
    ensures s[i..e] == Render(r)
  {
    Glue(s, i + |Host|, b, e, r.owner, RepoTail(r));
    Glue(s, i, i + |Host|, e, Host, r.owner + RepoTail(r));
  }

  /** Captures cut at group ends, put back together, spell the text from `i`, which a newline or the end follows. */
  lemma CapturesSpell(s: string, i: nat, b: nat, c: nat, d: nat)
    requires i + |Host| < b < c && c + |BlobSeparator| < d < |s|
    requires LiteralAt(s, i, Host) && LiteralAt(s, c, BlobSeparator)
    requires s[b] == '/' && s[d] == '/'
    ensures var r := Captures(s, i, b, c, d); var n := i + |Render(r)|;
            n <= |s| && s[i..n] == Render(r) && (n == |s| || s[n] == '\n')
  {
    var r := Captures(s, i, b, c, d);
    var e := FirstFrom(s, d + 1, '\n');
    PathSpelled(s, d, e, r);
    RefSpelled(s, c, d, e, r);
    RepoSpelled(s, b, c, e, r);
    OwnerSpelled(s, i, b, e, r);
  }

  /** Everything `MatchAt` returns is a match of the pattern. */
  lemma MatchAtSound(s: string, i: nat)
    requires i <= |s| && MatchAt(s, i).Some?
    ensures MatchesAt(s, i, MatchAt(s, i).value)
  {
    MatchAtWellFormed(s, i);
    MatchAtSpells(s, i);
  }

  /** The captures `MatchAt` returns are ones the groups of the pattern can take. */
  lemma MatchAtWellFormed(s: string, i: nat)
    requires i <= |s| && MatchAt(s, i).Some?
    ensures WellFormed(MatchAt(s, i).value)
  {
    var b, c, d := MatchAtBounds(s, i);
    SegmentEndClean(s, i + |Host|);
    SegmentEndClean(s, b + 1);
    SegmentEndClean(s, c + |BlobSeparator|);
    CapturesWellFormed(s, i, b, c, d);
  }

  /** The captures `MatchAt` returns spell the text from `i`, and a newline or the end follows. */
  lemma MatchAtSpells(s: string, i: nat)
    requires i <= |s| && MatchAt(s, i).Some?
    ensures var r := MatchAt(s, i).value; var n := i + |Render(r)|;
            n <= |s| && s[i..n] == Render(r) && (n == |s| || s[n] == '\n')
  {
    var b, c, d := MatchAtBounds(s, i);
    CapturesSpell(s, i, b, c, d);
  }

  /** A slice that spells a segment and is followed by `/` is a group `SegmentEnd` finds. */
  lemma SegmentEndOf(s: string, from: nat, x: string)
    requires from + |x| < |s| && s[from..from + |x|] == x && s[from + |x|] == '/'
    requires Segment(x)
    ensures SegmentEnd(s, from) == Some(from + |x|)
  {
    SegmentEndAt(s, from, from + |x|);
  }

  /** A slice spelling a matched text opens with `github.com/` and the owner group, and the rest spells `RepoTail`. */
  lemma OwnerPart(s: string, i: nat, n: nat, r: RepoFileRef)
    requires i <= n <= |s| && s[i..n] == Render(r) && Segment(r.owner)
    ensures var b := i + |Host| + |r.owner|;
            b < n && LiteralAt(s, i, Host) && s[i + |Host|..b] == r.owner && s[b..n] == RepoTail(r) &&
            SegmentEnd(s, i + |Host|) == Some(b)
  {
    var b := i + |Host| + |r.owner|;
    Peel(s, i, n, Host, r.owner + RepoTail(r));
    Peel(s, i + |Host|, n, r.owner, RepoTail(r));
    assert s[b] == s[b..n][0];
    SegmentEndOf(s, i + |Host|, r.owner);
  }

  /** A slice spelling `RepoTail` opens with `/` and the repository group, and the rest spells `RefTail`. */
  lemma RepoPart(s: string, b: nat, n: nat, r: RepoFileRef)
    requires b <= n <= |s| && s[b..n] == RepoTail(r) && Segment(r.repo)
    ensures var c := b + 1 + |r.repo|;
            c < n && s[b + 1..c] == r.repo && s[c..n] == RefTail(r) && SegmentEnd(s, b + 1) == Some(c)
  {
    var c := b + 1 + |r.repo|;
    Peel(s, b, n, "/", r.repo + RefTail(r));
    Peel(s, b + 1, n, r.repo, RefTail(r));
    assert s[c] == s[c..n][0];
    SegmentEndOf(s, b + 1, r.repo);
  }

  /** A slice spelling `RefTail` opens with `/blob/` and the ref group, and the rest spells `PathTail`. */
  lemma RefPart(s: string, c: nat, n: nat, r: RepoFileRef)
    requires c <= n <= |s| && s[c..n] == RefTail(r) && Segment(r.ref)
    ensures var d := c + |BlobSeparator| + |r.ref|;
            d < n && LiteralAt(s, c, BlobSeparator) && s[c + |BlobSeparator|..d] == r.ref &&
            s[d..n] == PathTail(r) && SegmentEnd(s, c + |BlobSeparator|) == Some(d)
  {
    var d := c + |BlobSeparator| + |r.ref|;
    Peel(s, c, n, BlobSeparator, r.ref + PathTail(r));
    Peel(s, c + |BlobSeparator|, n, r.ref, PathTail(r));
    assert s[d] == s[d..n][0];
    SegmentEndOf(s, c + |BlobSeparator|, r.ref);
  }

  /** A slice spelling `PathTail`, followed by a newline or the end, holds the path that `(.*)` captures. */
  lemma PathPart(s: string, d: nat, n: nat, r: RepoFileRef)
    requires d <= n <= |s| && s[d..n] == PathTail(r) && '\n' !in r.path
    requires n == |s| || s[n] == '\n'
    ensures d < n && s[d + 1..n] == r.path && FirstFrom(s, d + 1, '\n') == n
  {
    Peel(s, d, n, "/", r.path);
    FirstFromUnique(s, d + 1, '\n', n);
  }

  /** Once the owner and repository are found, a slice spelling `RefTail` completes the match. */
  lemma MatchRefOf(s: string, i: nat, b: nat, c: nat, n: nat, r: RepoFileRef)
    requires i + |Host| < b && b + 1 < c <= n <= |s|
    requires s[i + |Host|..b] == r.owner && s[b + 1..c] == r.repo
    requires s[c..n] == RefTail(r) && Segment(r.ref) && '\n' !in r.path
    requires n == |s| || s[n] == '\n'
    ensures c + |BlobSeparator| <= |s| && LiteralAt(s, c, BlobSeparator) && MatchRef(s, i, b, c) == Some(r)
  {
    RefPart(s, c, n, r);
    var d := c + |BlobSeparator| + |r.ref|;
    PathPart(s, d, n, r);
    CapturesAre(s, i, b, c, d, n, r);
  }

  /** Once the owner is found, a slice spelling `RepoTail` completes the match. */
  lemma MatchRepoOf(s: string, i: nat, b: nat, n: nat, r: RepoFileRef)
    requires i + |Host| < b <= n <= |s|
    requires s[i + |Host|..b] == r.owner && s[b..n] == RepoTail(r)
    requires Segment(r.repo) && Segment(r.ref) && '\n' !in r.path
    requires n == |s| || s[n] == '\n'
    ensures b < |s| && MatchRepo(s, i, b) == Some(r)
  {
    RepoPart(s, b, n, r);
    MatchRefOf(s, i, b, b + 1 + |r.repo|, n, r);
  }

  /** The literal `github.com/` opens every match. */
  lemma HostOpens(s: string, i: nat, r: RepoFileRef)
    requires MatchesAt(s, i, r)
    ensures LiteralAt(s, i, Host)
  {
    Peel(s, i, i + |Render(r)|, Host, r.owner + RepoTail(r));
  }

  /** The captures cut at `b`, `c` and `d`, with the path ending at `n`, are the slices between them. */
  lemma CapturesAre(s: string, i: nat, b: nat, c: nat, d: nat, n: nat, r: RepoFileRef)
    requires i + |Host| < b < c && c + |BlobSeparator| < d < n <= |s|
    requires FirstFrom(s, d + 1, '\n') == n
    requires s[i + |Host|..b] == r.owner && s[b + 1..c] == r.repo
    requires s[c + |BlobSeparator|..d] == r.ref && s[d + 1..n] == r.path
    ensures Captures(s, i, b, c, d) == r
  {
  }

  /** A match of the pattern is what `MatchAt` returns at its start. */
  lemma MatchAtOfMatches(s: string, i: nat, r: RepoFileRef)
    requires MatchesAt(s, i, r)
    ensures MatchAt(s, i) == Some(r)
  {
    var n := i + |Render(r)|;
    OwnerPart(s, i, n, r);
    MatchRepoOf(s, i, i + |Host| + |r.owner|, n, r);
  }

  /** `MatchAt` finds exactly the matches the pattern allows: `MatchAt(s, i) == Some(r)` iff `MatchesAt(s, i, r)`. */
  lemma MatchAtComplete(s: string, i: nat, r: RepoFileRef)
    requires i <= |s|
    ensures MatchAt(s, i) == Some(r) <==> MatchesAt(s, i, r)
  {
    if MatchesAt(s, i, r) {
      MatchAtOfMatches(s, i, r);
    } else if MatchAt(s, i).Some? {
      MatchAtSound(s, i);
    }
  }

  // ---------------------------------------------------------------------------
  // The unanchored search.
  // ---------------------------------------------------------------------------

  /** A match and where it starts. */
  datatype Match = Match(start: nat, captures: RepoFileRef)

  /** The leftmost match starting at or after `from`. */
  function Search(s: string, from: nat): Option<Match>
    requires from <= |s|
    decreases |s| - from
  {
    match MatchAt(s, from)
    case Some(r) => Some(Match(from, r))
    case None => if from == |s| then None else Search(s, from + 1)
  }

  /** What the search returns is a match found by `MatchAt`, at or after `from`. */
  lemma {:induction false} SearchFound(s: string, from: nat)
    requires from <= |s| && Search(s, from).Some?
    ensures from <= Search(s, from).value.start <= |s|
    ensures MatchAt(s, Search(s, from).value.start) == Some(Search(s, from).value.captures)
    decreases |s| - from
  {
    if MatchAt(s, from).None? {
      SearchFound(s, from + 1);
    }
  }

  /** Nothing matches between `from` and the start the search returns, nor anywhere after `from` if it returns none. */
  lemma {:induction false} SearchLeftmost(s: string, from: nat, j: nat)
    requires from <= j <= |s|
    requires Search(s, from).None? || j < Search(s, from).value.start
    ensures MatchAt(s, j).None?
    decreases j - from
  {
    if from < j {
      SearchLeftmost(s, from + 1, j);
    }
  }

  /** The four captures of the leftmost match, or the parse error. */
  function Parse(url: string): (p: Result<RepoFileRef>)
    ensures p.Ok? ==> WellFormed(p.value)
    ensures p.Err? ==> p.error == MalformedUrl
  {
    match Search(url, 0)
    case Some(m) => SearchFound(url, 0); MatchAtSound(url, m.start); Ok(m.captures)
    case None => Err(MalformedUrl)
  }

  /** What `Parse` returns is captured by a match, and no match starts earlier. */
  lemma ParseSound(s: string)
    requires Parse(s).Ok?
    ensures Search(s, 0).Some? && MatchesAt(s, Search(s, 0).value.start, Parse(s).value)
    ensures forall j: nat, r' :: j < Search(s, 0).value.start ==> !MatchesAt(s, j, r')
  {
    var m := Search(s, 0).value;
    SearchFound(s, 0);
    MatchAtSound(s, m.start);
    forall j: nat, r' | j < m.start ensures !MatchesAt(s, j, r') {
      SearchLeftmost(s, 0, j);
      MatchAtComplete(s, j, r');
    }
  }

  /** The leftmost match is the one used: a match with no match before it is what `Parse` returns. */
  lemma ParseLeftmost(s: string, i: nat, r: RepoFileRef)
    requires MatchesAt(s, i, r)
    requires forall j: nat, r' :: j < i ==> !MatchesAt(s, j, r')
    ensures Parse(s) == Ok(r)
  {
    MatchAtComplete(s, i, r);
    var m := Search(s, 0);
    if m.None? || i < m.value.start {
      SearchLeftmost(s, 0, i);
    } else if m.value.start < i {
      SearchFound(s, 0);
      MatchAtSound(s, m.value.start);
    } else {
      SearchFound(s, 0);
    }
  }

  /** The parse fails, producing no captures, exactly when nothing in the input matches. */
  lemma ParseFailsIffNoMatch(s: string)
    ensures Parse(s) == Err(MalformedUrl) <==> forall i: nat, r :: !MatchesAt(s, i, r)
  {
    if Parse(s).Ok? {
      ParseSound(s);
    } else {
      forall i: nat, r ensures !MatchesAt(s, i, r) {
        if i <= |s| {
          SearchLeftmost(s, 0, i);
          MatchAtComplete(s, i, r);
        }
      }
    }
  }

  /** An input in which the literal `github.com/` occurs nowhere is rejected. */
  lemma NoHostFails(s: string)
    requires forall i: nat :: !LiteralAt(s, i, Host)
    ensures Parse(s) == Err(MalformedUrl)
  {
    forall i: nat, r ensures !MatchesAt(s, i, r) {
      if MatchesAt(s, i, r) {
        HostOpens(s, i, r);
      }
    }
    ParseFailsIffNoMatch(s);
  }

  // ---------------------------------------------------------------------------
  // Unanchored: a prefix before the match does not matter.
  // ---------------------------------------------------------------------------

  /** Every match begins with the `g` of `github.com/`. */
  lemma MatchStartsWithG(s: string, i: nat, r: RepoFileRef)
    requires MatchesAt(s, i, r)
    ensures i < |s| && s[i] == 'g'
  {
    assert Render(r)[0] == 'g';
    assert s[i] == s[i..i + |Render(r)|][0];
  }

  /** Whether a match starts at a position depends only on the input from that position on. */
  lemma MatchesAtShift(p: string, t: string, k: nat, r: RepoFileRef)
    ensures MatchesAt(p + t, |p| + k, r) <==> MatchesAt(t, k, r)
  {
    var s := p + t;
    var n := k + |Render(r)|;
    if n <= |t| {
      assert s[|p| + k..|p| + n] == t[k..n];
      if n < |t| {
        assert s[|p| + n] == t[n];
      }
    }
  }

  /** Behind a prefix without a `g`, the matches are those of the rest, moved on by the prefix's length. */
  lemma PrefixMatches(p: string, t: string, j: nat, r: RepoFileRef)
    requires 'g' !in p
    ensures MatchesAt(p + t, j, r) <==> |p| <= j && MatchesAt(t, j - |p|, r)
  {
    if j < |p| {
      assert (p + t)[j] == p[j];
      if MatchesAt(p + t, j, r) {
        MatchStartsWithG(p + t, j, r);
      }
    } else {
      MatchesAtShift(p, t, j - |p|, r);
    }
  }

  /** The search is unanchored, so a prefix such as a scheme, holding no `g`, is ignored. */
  lemma ParseIgnoresPrefix(p: string, t: string)
    requires 'g' !in p
    ensures Parse(p + t) == Parse(t)
  {
    if Parse(t).Ok? {
      ParseSound(t);
      PrefixKeepsLeftmost(p, t, Search(t, 0).value.start, Parse(t).value);
      ParseLeftmost(p + t, |p| + Search(t, 0).value.start, Parse(t).value);
    } else {
      ParseFailsIffNoMatch(t);
      PrefixKeepsNoMatch(p, t);
      ParseFailsIffNoMatch(p + t);
    }
  }

  /** Behind a prefix without a `g`, the leftmost match of the rest is the leftmost match. */
  lemma PrefixKeepsLeftmost(p: string, t: string, i: nat, r: RepoFileRef)
    requires 'g' !in p
    requires MatchesAt(t, i, r) && forall j: nat, r' :: j < i ==> !MatchesAt(t, j, r')
    ensures MatchesAt(p + t, |p| + i, r)
    ensures forall j: nat, r' :: j < |p| + i ==> !MatchesAt(p + t, j, r')
  {
    PrefixMatches(p, t, |p| + i, r);
    forall j: nat, r' | j < |p| + i ensures !MatchesAt(p + t, j, r') {
      PrefixMatches(p, t, j, r');
    }
  }

  /** Behind a prefix without a `g`, a text without a match still has none. */
  lemma PrefixKeepsNoMatch(p: string, t: string)
    requires 'g' !in p
    requires forall j: nat, r :: !MatchesAt(t, j, r)
    ensures forall j: nat, r :: !MatchesAt(p + t, j, r)
  {
    forall j: nat, r ensures !MatchesAt(p + t, j, r) {
      PrefixMatches(p, t, j, r);
    }
  }

  // ---------------------------------------------------------------------------
  // Round trips with the blob-URL builder, and the documented limitations.
  // ---------------------------------------------------------------------------

  /**
   * The matched text, behind any prefix without a `g` and in front of the end
   * of the input or a newline, is parsed back into its captures.
   */
  lemma ParseRendered(u: string, p: string, r: RepoFileRef, q: string)
    requires WellFormed(r)
    requires 'g' !in p
    requires q == [] || q[0] == '\n'
    requires u == p + Render(r) + q
    ensures Parse(u) == Ok(r)
  {
    var t := Render(r) + q;
    assert u == p + t;
    ParseIgnoresPrefix(p, t);
    assert t[0..|Render(r)|] == Render(r);
    MatchAtComplete(t, 0, r);
  }

  /** Round trip with the blob-URL builder: the captures of a well-formed reference come back verbatim. */
  lemma BlobUrlRoundTrip(r: RepoFileRef)
    requires WellFormed(r)
    ensures Parse(BlobUrlOf(r)) == Ok(r)
  {
    ParseRendered(BlobUrlOf(r), "https://", r, []);
  }

  /** The scheme does not matter: with `http://` or none at all the same captures come back. */
  lemma SchemeIgnored(r: RepoFileRef)
    requires WellFormed(r)
    ensures Parse("http://" + Render(r)) == Ok(r)
    ensures Parse(Render(r)) == Ok(r)
  {
    ParseRendered("http://" + Render(r), "http://", r, []);
    ParseRendered(Render(r), [], r, []);
  }

  /**
   * The path ends at the first newline: whatever follows, even another blob
   * URL, is not part of the match, and the earlier URL is the one used.
   */
  lemma PathEndsAtNewline(r: RepoFileRef, rest: string)
    requires WellFormed(r)
    ensures Parse(BlobUrlOf(r) + "\n" + rest) == Ok(r)
  {
    ParseRendered(BlobUrlOf(r) + "\n" + rest, "https://", r, "\n" + rest);
  }

  /**
   * A ref cannot contain `/`. For a branch `ref1/ref2` the ref captured is
   * `ref1` and `ref2/` is put in front of the path.
   */
  lemma RefEndsAtFirstSlash(owner: string, repo: string, ref1: string, ref2: string, path: string)
    requires Segment(owner) && Segment(repo) && Segment(ref1)
    requires '\n' !in ref2 && '\n' !in path
    ensures Parse(BlobUrlOf(RepoFileRef(owner, repo, ref1 + "/" + ref2, path)))
            == Ok(RepoFileRef(owner, repo, ref1, ref2 + "/" + path))
  {
    var given := RepoFileRef(owner, repo, ref1 + "/" + ref2, path);
    var wanted := RepoFileRef(owner, repo, ref1, ref2 + "/" + path);
    assert '\n' !in ref2 + "/" + path by {
      forall k | 0 <= k < |ref2 + "/" + path| ensures (ref2 + "/" + path)[k] != '\n' {
        if k < |ref2| {
          assert (ref2 + "/" + path)[k] == ref2[k];
        } else if k > |ref2| {
          assert (ref2 + "/" + path)[k] == path[k - |ref2| - 1];
        }
      }
    }
    assert given.ref + PathTail(given) == wanted.ref + PathTail(wanted);
    assert Render(given) == Render(wanted);
    BlobUrlRoundTrip(wanted);
  }
}
