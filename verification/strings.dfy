/**
 * String helpers shared by the model: prefixes, infixes, and PHP's `trim`
 * with its default character list (space, tab, line feed, carriage return,
 * NUL and vertical tab).
 */
module Strings {

  predicate StartsWith(s: string, prefix: string) {
    |prefix| <= |s| && s[..|prefix|] == prefix
  }

  predicate EndsWith(s: string, suffix: string) {
    |suffix| <= |s| && s[|s| - |suffix|..] == suffix
  }

  /** A prefix of `a` is a prefix of every extension of `a`. */
  lemma PrefixExtends(a: string, x: string, p: string)
    ensures StartsWith(a, p) ==> StartsWith(a + x, p)
  {
    if StartsWith(a, p) {
      assert (a + x)[..|p|] == a[..|p|];
    }
  }

  /** `needle` occurs nowhere in `s`. */
  predicate Absent(needle: string, s: string) {
    forall k :: 0 <= k <= |s| ==> !StartsWith(s[k..], needle)
  }

  /** The characters PHP's `trim` removes when given no character list. */
  predicate IsTrimSpace(c: char) {
    c == ' ' || c == '\t' || c == '\n' || c == '\r' || c == '\0' || c == '\U{000B}'
  }

  predicate AllTrimSpace(s: string) {
    forall k :: 0 <= k < |s| ==> IsTrimSpace(s[k])
  }

  /** Neither end of `s` is a trimmable character. */
  predicate Untrimmable(s: string) {
    |s| > 0 ==> !IsTrimSpace(s[0]) && !IsTrimSpace(s[|s| - 1])
  }

  /** Number of trimmable characters at the start of `s`. */
  function LeadingSpace(s: string): (i: nat)
    ensures i <= |s|
    ensures AllTrimSpace(s[..i])
    ensures i < |s| ==> !IsTrimSpace(s[i])
  {
    if |s| == 0 || !IsTrimSpace(s[0]) then 0 else 1 + LeadingSpace(s[1..])
  }

  /** Length of `s` once its trailing trimmable characters are cut off. */
  function TrailingCut(s: string): (j: nat)
    ensures j <= |s|
    ensures AllTrimSpace(s[j..])
    ensures j > 0 ==> !IsTrimSpace(s[j - 1])
  {
    if |s| == 0 || !IsTrimSpace(s[|s| - 1]) then |s| else TrailingCut(s[..|s| - 1])
  }

  /**
   * `r` is what trimming `s` leaves: a slice of `s` with only trimmable
   * characters cut on either side, and no trimmable character left at its
   * ends.
   */
  ghost predicate IsTrimOf(s: string, r: string) {
    exists i, j :: TrimCut(s, r, i, j)
  }

  /** `r` is `s[i..j]`, only trimmable characters lie outside it, and it cannot be trimmed further. */
  predicate TrimCut(s: string, r: string, i: int, j: int) {
    0 <= i <= j <= |s| && r == s[i..j] && AllTrimSpace(s[..i]) && AllTrimSpace(s[j..]) && Untrimmable(r)
  }

  /** PHP's `trim($s)`. */
  function Trim(s: string): (r: string)
    ensures IsTrimOf(s, r)
    ensures |r| <= |s|
  {
    var i := LeadingSpace(s);
    var rest := s[i..];
    var j := TrailingCut(rest);
    assert rest[..j] == s[i..i + j];
    assert rest[j..] == s[i + j..];
    assert TrimCut(s, s[i..i + j], i, i + j);
    s[i..i + j]
  }

  /** There is only one way to trim a string, so `IsTrimOf` pins down `Trim`. */
  lemma TrimUnique(s: string, r1: string, r2: string)
    requires IsTrimOf(s, r1) && IsTrimOf(s, r2)
    ensures r1 == r2
  {
    var i1, j1 :| TrimCut(s, r1, i1, j1);
    var i2, j2 :| TrimCut(s, r2, i2, j2);
    SameCut(s, r1, i1, j1, r2, i2, j2);
  }

  lemma SameCut(s: string, r1: string, i1: int, j1: int, r2: string, i2: int, j2: int)
    requires TrimCut(s, r1, i1, j1) && TrimCut(s, r2, i2, j2)
    ensures r1 == r2
  {
    if i1 == j1 {
      EmptyTrimMeansBlank(s, i1, j1, i2, j2);
    } else if i2 == j2 {
      EmptyTrimMeansBlank(s, i2, j2, i1, j1);
    } else {
      assert s[i1] == r1[0] && s[i2] == r2[0];
      assert s[j1 - 1] == r1[|r1| - 1] && s[j2 - 1] == r2[|r2| - 1];
      SameStart(s, i1, i2);
      SameEnd(s, j1, j2);
    }
  }

  /** Two cuts that both stop at a non-trimmable character stop at the same one. */
  lemma SameStart(s: string, i: nat, k: nat)
    requires i < |s| && k < |s| && AllTrimSpace(s[..i]) && AllTrimSpace(s[..k])
    requires !IsTrimSpace(s[i]) && !IsTrimSpace(s[k])
    ensures i == k
  {
    forall t | 0 <= t < i ensures IsTrimSpace(s[t]) {
      assert s[..i][t] == s[t];
    }
    forall t | 0 <= t < k ensures IsTrimSpace(s[t]) {
      assert s[..k][t] == s[t];
    }
  }

  lemma SameEnd(s: string, j: nat, k: nat)
    requires 0 < j <= |s| && 0 < k <= |s| && AllTrimSpace(s[j..]) && AllTrimSpace(s[k..])
    requires !IsTrimSpace(s[j - 1]) && !IsTrimSpace(s[k - 1])
    ensures j == k
  {
    forall t | j <= t < |s| ensures IsTrimSpace(s[t]) {
      assert s[j..][t - j] == s[t];
    }
    forall t | k <= t < |s| ensures IsTrimSpace(s[t]) {
      assert s[k..][t - k] == s[t];
    }
  }

  /** When one trim of `s` is empty, `s` is blank, so every trim of it is empty. */
  lemma EmptyTrimMeansBlank(s: string, i: nat, j: nat, i': nat, j': nat)
    requires i == j <= |s| && AllTrimSpace(s[..i]) && AllTrimSpace(s[j..])
    requires i' <= j' <= |s| && Untrimmable(s[i'..j'])
    ensures i' == j'
  {
    forall t | 0 <= t < |s| ensures IsTrimSpace(s[t]) {
      if t < i {
        assert s[..i][t] == s[t];
      } else {
        assert s[j..][t - j] == s[t];
      }
    }
  }
}
