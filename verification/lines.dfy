/**
 * Splitting a string at every occurrence of a separator (CRLF for MIME,
 * line feed for plain text) and joining pieces back with it.
 */
module Lines {
  import opened Strings

  /**
   * A separator whose first character does not occur again inside it, such
   * as CRLF or LF. Two occurrences of such a separator can never overlap.
   */
  predicate Unbordered(sep: string) {
    |sep| > 0 && forall k :: 1 <= k < |sep| ==> sep[k] != sep[0]
  }

  /** The pieces of `s` between occurrences of `sep`, scanning left to right. */
  function Split(s: string, sep: string): (pieces: seq<string>)
    requires |sep| > 0
    ensures |pieces| >= 1
    decreases |s|
  {
    if StartsWith(s, sep) then [""] + Split(s[|sep|..], sep)
    else if |s| == 0 then [""]
    else
      var rest := Split(s[1..], sep);
      [[s[0]] + rest[0]] + rest[1..]
  }

  /** The pieces glued back together with `sep` between neighbours. */
  function Join(pieces: seq<string>, sep: string): string
  {
    if |pieces| == 0 then ""
    else if |pieces| == 1 then pieces[0]
    else pieces[0] + sep + Join(pieces[1..], sep)
  }

  /** Joining the pieces of a split gives the string back. */
  lemma {:induction false} JoinSplit(s: string, sep: string)
    requires |sep| > 0
    ensures Join(Split(s, sep), sep) == s
    decreases |s|
  {
    if StartsWith(s, sep) {
      JoinSplit(s[|sep|..], sep);
      assert s == sep + s[|sep|..];
    } else if |s| > 0 {
      var rest := Split(s[1..], sep);
      JoinSplit(s[1..], sep);
      JoinCons(s[0], rest, sep);
      assert s == [s[0]] + s[1..];
    }
  }

  /** Putting a character in front of the first piece puts it in front of the joined string. */
  lemma JoinCons(c: char, pieces: seq<string>, sep: string)
    requires |pieces| >= 1
    ensures Join([[c] + pieces[0]] + pieces[1..], sep) == [c] + Join(pieces, sep)
  {
    var ps := [[c] + pieces[0]] + pieces[1..];
    assert ps[0] == [c] + pieces[0] && ps[1..] == pieces[1..];
    if |pieces| > 1 {
      assert Join(ps, sep) == ([c] + pieces[0]) + sep + Join(pieces[1..], sep);
    }
  }

  /** A string in which the separator does not occur is a single piece. */
  lemma {:induction false} SplitAbsent(s: string, sep: string)
    requires |sep| > 0 && Absent(sep, s)
    ensures Split(s, sep) == [s]
    decreases |s|
  {
    assert !StartsWith(s[0..], sep);
    assert s[0..] == s;
    if |s| > 0 {
      assert Absent(sep, s[1..]) by {
        forall k | 0 <= k <= |s[1..]| ensures !StartsWith(s[1..][k..], sep) {
          assert s[1..][k..] == s[k + 1..];
        }
      }
      SplitAbsent(s[1..], sep);
      assert s == [s[0]] + s[1..];
    }
  }

  /** A separator never occurs in a string without its first character. */
  lemma AbsentWithoutLead(s: string, sep: string)
    requires |sep| > 0 && sep[0] !in s
    ensures Absent(sep, s)
  {
    forall k | 0 <= k <= |s| ensures !StartsWith(s[k..], sep) {
      if k < |s| {
        assert s[k..][0] == s[k];
      }
    }
  }

  /**
   * Splitting is compositional at an occurrence of an unbordered separator:
   * the pieces of `a + sep + b` are the pieces of `a` followed by those of `b`.
   */
  lemma {:induction false} SplitAppend(a: string, sep: string, b: string)
    requires Unbordered(sep)
    ensures Split(a + sep + b, sep) == Split(a, sep) + Split(b, sep)
    decreases |a|
  {
    var s := a + sep + b;
    if |a| == 0 {
      assert s == sep + b;
      assert s[..|sep|] == sep && s[|sep|..] == b;
    } else if StartsWith(s, sep) {
      assert s[|a|] == sep[0];
      assert forall k :: 0 <= k < |sep| ==> s[k] == s[..|sep|][k] == sep[k];
      assert a[..|sep|] == s[..|sep|];
      assert StartsWith(a, sep);
      assert s[|sep|..] == a[|sep|..] + sep + b;
      SplitAppend(a[|sep|..], sep, b);
    } else {
      PrefixExtends(a, sep + b, sep);
      assert s == a + (sep + b);
      assert a == [a[0]] + a[1..];
      assert s[0] == a[0];
      assert s[1..] == a[1..] + sep + b;
      SplitAppend(a[1..], sep, b);
    }
  }

  /** The first piece of a split is a prefix of the string. */
  lemma {:induction false} FirstPiecePrefix(s: string, sep: string)
    requires |sep| > 0
    ensures StartsWith(s, Split(s, sep)[0])
    decreases |s|
  {
    if !StartsWith(s, sep) && |s| > 0 {
      FirstPiecePrefix(s[1..], sep);
      var p := Split(s[1..], sep)[0];
      assert s[..|p| + 1] == [s[0]] + s[1..][..|p|];
    }
  }

  /** Every piece of a split occurs in the string it came from. */
  lemma {:induction false} PieceOccurs(s: string, sep: string, i: nat)
    requires |sep| > 0 && i < |Split(s, sep)|
    ensures exists k :: 0 <= k <= |s| && StartsWith(s[k..], Split(s, sep)[i])
    decreases |s|
  {
    var pieces := Split(s, sep);
    if StartsWith(s, sep) {
      if i == 0 {
        assert StartsWith(s[0..], pieces[0]);
      } else {
        var t := s[|sep|..];
        PieceOccurs(t, sep, i - 1);
        var k :| 0 <= k <= |t| && StartsWith(t[k..], Split(t, sep)[i - 1]);
        assert t[k..] == s[|sep| + k..];
      }
    } else if |s| == 0 {
      assert StartsWith(s[0..], pieces[0]);
    } else if i == 0 {
      FirstPiecePrefix(s, sep);
      assert s[0..] == s;
    } else {
      var t := s[1..];
      PieceOccurs(t, sep, i);
      var k :| 0 <= k <= |t| && StartsWith(t[k..], Split(t, sep)[i]);
      assert t[k..] == s[1 + k..];
    }
  }

  /** CRLF, the line separator of Internet mail. */
  const CRLF: string := "\r\n"

  /** LF, the line separator of the plain-text views. */
  const LF: string := "\n"

  lemma SeparatorsUnbordered()
    ensures Unbordered(CRLF) && Unbordered(LF)
  {
  }

  /** A line with no carriage return is a single CRLF piece. */
  lemma SplitLine(s: string)
    requires '\r' !in s
    ensures Split(s, CRLF) == [s]
  {
    AbsentWithoutLead(s, CRLF);
    SplitAbsent(s, CRLF);
  }
}
