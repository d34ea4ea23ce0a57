/** Scanning helpers on strings shared by the URL parsers. */
module Text {

  /** The index of the first `c` in `s` at or after `from`, or `|s|` when there is none. */
  function FirstFrom(s: string, from: nat, c: char): (k: nat)
    requires from <= |s|
    ensures from <= k <= |s|
    ensures k < |s| ==> s[k] == c
    decreases |s| - from
  {
    if from == |s| then from
    else if s[from] == c then from
    else FirstFrom(s, from + 1, c)
  }

  /** No `c` comes before the index `FirstFrom` returns. */
  lemma {:induction false} BeforeFirst(s: string, from: nat, c: char)
    requires from <= |s|
    ensures c !in s[from..FirstFrom(s, from, c)]
    decreases |s| - from
  {
    if from < |s| && s[from] != c {
      BeforeFirst(s, from + 1, c);
      assert s[from..FirstFrom(s, from, c)] == [s[from]] + s[from + 1..FirstFrom(s, from + 1, c)];
    }
  }

  /** An index with a `c` at it (or at the end) and no `c` before it is the one `FirstFrom` returns. */
  lemma {:induction false} FirstFromUnique(s: string, from: nat, c: char, k: nat)
    requires from <= k <= |s|
    requires k < |s| ==> s[k] == c
    requires c !in s[from..k]
    ensures FirstFrom(s, from, c) == k
    decreases k - from
  {
    if from < k {
      assert s[from] == s[from..k][0];
      assert s[from + 1..k] == s[from..k][1..];
      FirstFromUnique(s, from + 1, c, k);
    }
  }

  /** A slice that spells `x + y` splits into a slice that spells `x` and one that spells `y`. */
  lemma Peel(s: string, i: nat, n: nat, x: string, y: string)
    requires i <= n <= |s|
    requires s[i..n] == x + y
    ensures i + |x| <= n
    ensures s[i..i + |x|] == x
    ensures s[i + |x|..n] == y
  {
    assert s[i..i + |x|] == s[i..n][..|x|];
    assert s[i + |x|..n] == s[i..n][|x|..];
  }

  /** Adjacent slices that spell `x` and `y` together spell `x + y`. */
  lemma Glue(s: string, from: nat, mid: nat, upto: nat, x: string, y: string)
    requires from <= mid <= upto <= |s|
    requires s[from..mid] == x && s[mid..upto] == y
    ensures s[from..upto] == x + y
  {
    assert s[from..upto] == s[from..mid] + s[mid..upto];
  }

  /** A slice of one character spells that character. */
  lemma CharSlice(s: string, k: nat, ch: char)
    requires k < |s| && s[k] == ch
    ensures s[k..k + 1] == [ch]
  {
  }
}
