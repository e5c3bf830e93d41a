/**
 * The notification's MIME framing: the mail headers announcing a
 * `multipart/alternative` body with a boundary, and the body itself with
 * a text/plain part followed by a text/html part (sections 5.1.1 and 5.1.4
 * of RFC 2046). A small reader for that framing states what the assembled
 * text means: the boundary it announces, and the parts it holds, in order.
 */
module Mime {
  import opened Wrappers
  import opened Strings
  import opened Lines

  /** The fixed header lines of the mail and of its two parts. */
  const ContentType: string := "Content-Type: "
  const From: string := "From: ELMAR Szkolenia " + "<szkolenia@inovit.com.pl>"
  const ReplyTo: string := "Reply-To: " + "kontakt@inovit.com.pl"
  const MimeVersion: string := "MIME-Version: 1.0"
  const BoundaryPrefix: string := ContentType + "multipart/alternative; " + "boundary=\""
  const PlainType: string := ContentType + "text/plain; charset=\"UTF-8\""
  const HtmlType: string := ContentType + "text/html; charset=\"UTF-8\""
  const Encoding: string := "Content-Transfer-Encoding: " + "7bit"

  /** The delimiter line between parts, and the closing one after the last part. */
  function Delimiter(sep: string): string {
    "--" + sep
  }

  function CloseDelimiter(sep: string): string {
    "--" + sep + "--"
  }

  /** A line followed by CRLF and whatever comes after it. */
  function Line(l: string, rest: string): string {
    l + CRLF + rest
  }

  /** The additional headers handed to `mail()`, each line ended by CRLF. */
  function Headers(sep: string): string {
    Line(From, Line(ReplyTo, Line(MimeVersion, Line(BoundaryPrefix + sep + "\"", ""))))
  }

  /**
   * The message body: opening delimiter, the plain part with its two header
   * lines and a blank line, a delimiter, the HTML part likewise, and the
   * closing delimiter.
   */
  function Message(sep: string, plain: string, html: string): string {
    Line(Delimiter(sep), Line(PlainType, Line(Encoding, Line("", Line(plain,
      Line(Delimiter(sep), Line(HtmlType, Line(Encoding, Line("", Line(html, CloseDelimiter(sep)))))))))))
  }

  lemma LineKeepsSuffix(l: string, rest: string, suffix: string)
    requires EndsWith(rest, suffix)
    ensures EndsWith(Line(l, rest), suffix)
  {
    var s := Line(l, rest);
    assert s[|s| - |suffix|..] == rest[|rest| - |suffix|..];
  }

  /** The body opens with the delimiter line and its very last text is the closing delimiter. */
  lemma MessageFraming(sep: string, plain: string, html: string)
    ensures StartsWith(Message(sep, plain, html), Delimiter(sep) + CRLF)
    ensures EndsWith(Message(sep, plain, html), CloseDelimiter(sep))
  {
    var c := CloseDelimiter(sep);
    var d := Delimiter(sep);
    var t9 := Line(html, c);
    var t8 := Line("", t9);
    var t7 := Line(Encoding, t8);
    var t6 := Line(HtmlType, t7);
    var t5 := Line(d, t6);
    var t4 := Line(plain, t5);
    var t3 := Line("", t4);
    var t2 := Line(Encoding, t3);
    var t1 := Line(PlainType, t2);
    assert EndsWith(c, c) by { assert c[|c| - |c|..] == c; }
    LineKeepsSuffix(html, c, c);
    LineKeepsSuffix("", t9, c);
    LineKeepsSuffix(Encoding, t8, c);
    LineKeepsSuffix(HtmlType, t7, c);
    LineKeepsSuffix(d, t6, c);
    LineKeepsSuffix(plain, t5, c);
    LineKeepsSuffix("", t4, c);
    LineKeepsSuffix(Encoding, t3, c);
    LineKeepsSuffix(PlainType, t2, c);
    LineKeepsSuffix(d, t1, c);
    var m := Line(d, t1);
    assert m[..|d + CRLF|] == d + CRLF;
  }

  /** One body part: its header lines, then its content. */
  datatype Part = Part(headers: seq<string>, body: string)

  /** Header lines run up to the first empty line; the remaining lines are the content. */
  function PartOf(lines: seq<string>): Part
  {
    if |lines| == 0 then Part([], "")
    else if lines[0] == "" then Part([], Join(lines[1..], CRLF))
    else
      var p := PartOf(lines[1..]);
      Part([lines[0]] + p.headers, p.body)
  }

  /**
   * Groups the lines after the opening delimiter into parts, one per
   * delimiter, stopping at the closing delimiter; anything after it is the
   * epilogue and is ignored. `None` when the closing delimiter is missing.
   */
  function Collect(lines: seq<string>, sep: string, current: seq<string>): Option<seq<seq<string>>>
    decreases |lines|
  {
    if |lines| == 0 then None
    else if lines[0] == CloseDelimiter(sep) then Some([current])
    else if lines[0] == Delimiter(sep) then
      match Collect(lines[1..], sep, [])
      case None => None
      case Some(rest) => Some([current] + rest)
    else Collect(lines[1..], sep, current + [lines[0]])
  }

  /** Reads a multipart body that opens with a delimiter line for `sep`. */
  function ParseMultipart(message: string, sep: string): Option<seq<Part>>
  {
    var lines := Split(message, CRLF);
    if lines[0] != Delimiter(sep) then None
    else
      match Collect(lines[1..], sep, [])
      case None => None
      case Some(groups) => Some(seq(|groups|, i requires 0 <= i < |groups| => PartOf(groups[i])))
  }

  /** The value of the `boundary` parameter in the first multipart Content-Type header line. */
  function BoundaryParameter(headers: string): Option<string>
  {
    FindBoundary(Split(headers, CRLF))
  }

  function FindBoundary(lines: seq<string>): Option<string>
  {
    if |lines| == 0 then None
    else
      var l := lines[0];
      if StartsWith(l, BoundaryPrefix) && |l| > |BoundaryPrefix| && l[|l| - 1] == '"' then
        Some(l[|BoundaryPrefix|..|l| - 1])
      else FindBoundary(lines[1..])
  }

  /** None of `lines` is a delimiter line of `sep`. */
  predicate NoDelimiters(lines: seq<string>, sep: string) {
    forall i :: 0 <= i < |lines| ==> lines[i] != Delimiter(sep) && lines[i] != CloseDelimiter(sep)
  }

  /** No line of `s` could be mistaken for a delimiter line of `sep`. */
  predicate NoDelimiterLine(s: string, sep: string) {
    NoDelimiters(Split(s, CRLF), sep)
  }

  /**
   * A boundary that occurs nowhere in a content cannot form one of its
   * lines' delimiters, so the condition of `MessageRoundTrip` holds.
   */
  lemma AbsentBoundaryNoDelimiterLine(s: string, sep: string)
    requires Absent(sep, s)
    ensures NoDelimiterLine(s, sep)
  {
    var pieces := Split(s, CRLF);
    forall i | 0 <= i < |pieces| ensures pieces[i] != Delimiter(sep) && pieces[i] != CloseDelimiter(sep) {
      PieceOccurs(s, CRLF, i);
      var k :| 0 <= k <= |s| && StartsWith(s[k..], pieces[i]);
      DelimiterHoldsBoundary(s, k, pieces[i], sep);
    }
  }

  /** Where a delimiter line occurs, its boundary occurs two characters later. */
  lemma DelimiterHoldsBoundary(s: string, k: nat, l: string, sep: string)
    requires k <= |s| && StartsWith(s[k..], l)
    ensures l == Delimiter(sep) || l == CloseDelimiter(sep) ==> k + 2 <= |s| && StartsWith(s[k + 2..], sep)
  {
    if l == Delimiter(sep) || l == CloseDelimiter(sep) {
      assert 2 + |sep| <= |l| && l[2..2 + |sep|] == sep;
      forall j | 0 <= j < |sep| ensures s[k + 2 + j] == sep[j] {
        assert s[k..][2 + j] == l[2 + j];
      }
      assert s[k + 2..][..|sep|] == sep;
    }
  }

  lemma NoDelimitersAppend(a: seq<string>, b: seq<string>, sep: string)
    requires NoDelimiters(a, sep) && NoDelimiters(b, sep)
    ensures NoDelimiters(a + b, sep)
  {
  }

  /** Splitting a CRLF-ended line off the front of a string. */
  lemma SplitLineCons(l: string, rest: string)
    requires '\r' !in l
    ensures Split(Line(l, rest), CRLF) == [l] + Split(rest, CRLF)
  {
    SeparatorsUnbordered();
    SplitAppend(l, CRLF, rest);
    SplitLine(l);
  }

  /** The Content-Type header announces exactly the boundary the body is built with. */
  lemma HeadersAnnounceBoundary(sep: string)
    requires '\r' !in sep
    ensures BoundaryParameter(Headers(sep)) == Some(sep)
  {
    HeaderSplit(sep);
    BoundaryLineFound(sep);
  }

  /** The header block is four CRLF-ended lines. */
  lemma HeaderSplit(sep: string)
    requires '\r' !in sep
    ensures Split(Headers(sep), CRLF) == [From, ReplyTo, MimeVersion, BoundaryPrefix + sep + "\"", ""]
  {
    var ct := BoundaryPrefix + sep + "\"";
    HeaderLinesOneLine();
    BoundaryLineOneLine(sep);
    SplitLineCons(ct, "");
    SplitLineCons(MimeVersion, Line(ct, ""));
    SplitLineCons(ReplyTo, Line(MimeVersion, Line(ct, "")));
    SplitLineCons(From, Line(ReplyTo, Line(MimeVersion, Line(ct, ""))));
  }

  lemma BoundaryLineOneLine(sep: string)
    requires '\r' !in sep
    ensures '\r' !in BoundaryPrefix + sep + "\""
  {
    assert '\r' !in BoundaryPrefix;
  }

  /** Only the Content-Type line carries the boundary parameter. */
  lemma BoundaryLineFound(sep: string)
    ensures FindBoundary([From, ReplyTo, MimeVersion, BoundaryPrefix + sep + "\"", ""]) == Some(sep)
  {
    var ct := BoundaryPrefix + sep + "\"";
    assert !StartsWith(From, BoundaryPrefix) by {
      assert From[0] == 'F' && BoundaryPrefix[0] == 'C';
      assert |From| >= |BoundaryPrefix| ==> From[..|BoundaryPrefix|][0] == 'F';
    }
    assert |ReplyTo| < |BoundaryPrefix| && |MimeVersion| < |BoundaryPrefix|;
    assert ct[..|BoundaryPrefix|] == BoundaryPrefix;
    assert ct[|BoundaryPrefix|..|ct| - 1] == sep;
    assert FindBoundary([ct, ""]) == Some(sep);
    assert FindBoundary([MimeVersion, ct, ""]) == Some(sep) by {
      assert [MimeVersion, ct, ""][1..] == [ct, ""];
    }
    assert FindBoundary([ReplyTo, MimeVersion, ct, ""]) == Some(sep) by {
      assert [ReplyTo, MimeVersion, ct, ""][1..] == [MimeVersion, ct, ""];
    }
    assert [From, ReplyTo, MimeVersion, ct, ""][1..] == [ReplyTo, MimeVersion, ct, ""];
  }

  /** Lines that are not delimiters are gathered into the current part. */
  lemma {:induction false} CollectSkips(xs: seq<string>, rest: seq<string>, sep: string, current: seq<string>)
    requires NoDelimiters(xs, sep)
    ensures Collect(xs + rest, sep, current) == Collect(rest, sep, current + xs)
  {
    if |xs| > 0 {
      assert (xs + rest)[0] == xs[0];
      assert (xs + rest)[1..] == xs[1..] + rest;
      CollectSkips(xs[1..], rest, sep, current + [xs[0]]);
      assert current + [xs[0]] + xs[1..] == current + xs;
    } else {
      assert xs + rest == rest;
      assert current + xs == current;
    }
  }

  /** A part's header lines end at the first empty line; the rest is its content. */
  lemma {:induction false} PartOfLayout(hs: seq<string>, content: seq<string>)
    requires forall i :: 0 <= i < |hs| ==> hs[i] != ""
    ensures PartOf(hs + [""] + content) == Part(hs, Join(content, CRLF))
  {
    var lines := hs + [""] + content;
    if |hs| > 0 {
      assert lines[0] == hs[0];
      assert lines[1..] == hs[1..] + [""] + content;
      PartOfLayout(hs[1..], content);
      assert [hs[0]] + hs[1..] == hs;
    } else {
      assert lines[0] == "";
      assert lines[1..] == content;
    }
  }

  /** The fixed part header lines are neither empty nor delimiters. */
  lemma PartHeadersPlain(sep: string)
    ensures NoDelimiters([PlainType, Encoding, ""], sep)
    ensures NoDelimiters([HtmlType, Encoding, ""], sep)
  {
    assert Delimiter(sep)[0] == '-' && CloseDelimiter(sep)[0] == '-';
    assert PlainType[0] == 'C' && HtmlType[0] == 'C' && Encoding[0] == 'C';
  }

  /** None of the fixed header lines holds a carriage return. */
  lemma HeaderLinesOneLine()
    ensures '\r' !in From && '\r' !in ReplyTo && '\r' !in MimeVersion
    ensures '\r' !in PlainType && '\r' !in HtmlType && '\r' !in Encoding
  {
    FromOneLine();
    ReplyToOneLine();
    PartTypesOneLine();
  }

  lemma FromOneLine() ensures '\r' !in From {}
  lemma ReplyToOneLine() ensures '\r' !in ReplyTo && '\r' !in MimeVersion {}
  lemma PartTypesOneLine() ensures '\r' !in PlainType && '\r' !in HtmlType && '\r' !in Encoding {}

  /** The lines of one body part: its Content-Type, its encoding, a blank line, its content. */
  lemma PartLines(contentType: string, enc: string, content: string, rest: string)
    requires '\r' !in contentType && '\r' !in enc
    ensures Split(Line(contentType, Line(enc, Line("", Line(content, rest)))), CRLF)
      == [contentType, enc, ""] + Split(content, CRLF) + Split(rest, CRLF)
  {
    SeparatorsUnbordered();
    SplitAppend(content, CRLF, rest);
    SplitLineCons("", Line(content, rest));
    SplitLineCons(enc, Line("", Line(content, rest)));
    SplitLineCons(contentType, Line(enc, Line("", Line(content, rest))));
  }

  /** The framing over arbitrary one-line headers and delimiters. */
  lemma FrameLines(d: string, pt: string, ht: string, enc: string, c: string, plain: string, html: string)
    requires '\r' !in d && '\r' !in pt && '\r' !in ht && '\r' !in enc && '\r' !in c
    ensures Split(Line(d, Line(pt, Line(enc, Line("", Line(plain,
              Line(d, Line(ht, Line(enc, Line("", Line(html, c)))))))))), CRLF)
      == [d, pt, enc, ""] + Split(plain, CRLF) + [d, ht, enc, ""] + Split(html, CRLF) + [c]
  {
    var second := Line(d, Line(ht, Line(enc, Line("", Line(html, c)))));
    LastPartLines(d, ht, enc, c, html);
    PartLines(pt, enc, plain, second);
    SplitLineCons(d, Line(pt, Line(enc, Line("", Line(plain, second)))));
    var p := Split(plain, CRLF);
    var q := [d, ht, enc, ""] + Split(html, CRLF) + [c];
    assert [d] + ([pt, enc, ""] + p + q) == [d, pt, enc, ""] + p + q;
  }

  lemma LastPartLines(d: string, ht: string, enc: string, c: string, html: string)
    requires '\r' !in d && '\r' !in ht && '\r' !in enc && '\r' !in c
    ensures Split(Line(d, Line(ht, Line(enc, Line("", Line(html, c))))), CRLF)
      == [d, ht, enc, ""] + Split(html, CRLF) + [c]
  {
    SplitLine(c);
    PartLines(ht, enc, html, c);
    SplitLineCons(d, Line(ht, Line(enc, Line("", Line(html, c)))));
    var h := Split(html, CRLF);
    assert [d] + ([ht, enc, ""] + h + [c]) == [d, ht, enc, ""] + h + [c];
  }

  /** The lines of the assembled body, part by part. */
  lemma MessageLines(sep: string, plain: string, html: string)
    requires '\r' !in sep
    ensures Split(Message(sep, plain, html), CRLF)
      == [Delimiter(sep), PlainType, Encoding, ""] + Split(plain, CRLF)
       + [Delimiter(sep), HtmlType, Encoding, ""] + Split(html, CRLF) + [CloseDelimiter(sep)]
  {
    HeaderLinesOneLine();
    assert '\r' !in Delimiter(sep) && '\r' !in CloseDelimiter(sep);
    FrameLines(Delimiter(sep), PlainType, HtmlType, Encoding, CloseDelimiter(sep), plain, html);
  }

  /** Two runs of ordinary lines between the delimiters are read as two parts. */
  lemma CollectTwoParts(sep: string, xs: seq<string>, ys: seq<string>)
    requires NoDelimiters(xs, sep) && NoDelimiters(ys, sep)
    ensures Collect(xs + ([Delimiter(sep)] + (ys + [CloseDelimiter(sep)])), sep, []) == Some([xs, ys])
  {
    var r := [Delimiter(sep)] + (ys + [CloseDelimiter(sep)]);
    CollectSkips(xs, r, sep, []);
    assert [] + xs == xs;
    assert Collect(xs + r, sep, []) == Collect(r, sep, xs);
    LastPart(sep, ys);
    CollectAtDelimiter(sep, xs, ys + [CloseDelimiter(sep)]);
    assert Collect(r, sep, xs) == Some([xs] + [ys]);
    assert [xs] + [ys] == [xs, ys];
  }

  lemma LastPart(sep: string, ys: seq<string>)
    requires NoDelimiters(ys, sep)
    ensures Collect(ys + [CloseDelimiter(sep)], sep, []) == Some([ys])
  {
    CollectSkips(ys, [CloseDelimiter(sep)], sep, []);
    assert [] + ys == ys;
  }

  /** A delimiter line closes the current part and starts a new, empty one. */
  lemma CollectAtDelimiter(sep: string, current: seq<string>, rest: seq<string>)
    ensures Collect([Delimiter(sep)] + rest, sep, current)
      == match Collect(rest, sep, []) case None => None case Some(parts) => Some([current] + parts)
  {
    var lines := [Delimiter(sep)] + rest;
    assert Delimiter(sep) != CloseDelimiter(sep) by {
      assert |CloseDelimiter(sep)| == |Delimiter(sep)| + 2;
    }
    assert lines[0] == Delimiter(sep) && lines[1..] == rest;
  }

  /** The lines after the opening delimiter fall into the plain part and the HTML part. */
  lemma MessageGroups(sep: string, plain: string, html: string)
    requires '\r' !in sep
    requires NoDelimiterLine(plain, sep) && NoDelimiterLine(html, sep)
    ensures Split(Message(sep, plain, html), CRLF)[0] == Delimiter(sep)
    ensures Collect(Split(Message(sep, plain, html), CRLF)[1..], sep, [])
      == Some([[PlainType, Encoding, ""] + Split(plain, CRLF), [HtmlType, Encoding, ""] + Split(html, CRLF)])
  {
    var xs := [PlainType, Encoding, ""] + Split(plain, CRLF);
    var ys := [HtmlType, Encoding, ""] + Split(html, CRLF);
    var rest := xs + ([Delimiter(sep)] + (ys + [CloseDelimiter(sep)]));
    MessageLinesGrouped(sep, plain, html);
    PartsNoDelimiters(sep, plain, html);
    CollectTwoParts(sep, xs, ys);
    HeadAndTail(Delimiter(sep), rest);
  }

  lemma HeadAndTail(d: string, rest: seq<string>)
    ensures ([d] + rest)[0] == d && ([d] + rest)[1..] == rest
  {
  }

  /** Both parts' lines, headers included, hold no delimiter line. */
  lemma PartsNoDelimiters(sep: string, plain: string, html: string)
    requires NoDelimiterLine(plain, sep) && NoDelimiterLine(html, sep)
    ensures NoDelimiters([PlainType, Encoding, ""] + Split(plain, CRLF), sep)
    ensures NoDelimiters([HtmlType, Encoding, ""] + Split(html, CRLF), sep)
  {
    PartHeadersPlain(sep);
    NoDelimitersAppend([PlainType, Encoding, ""], Split(plain, CRLF), sep);
    NoDelimitersAppend([HtmlType, Encoding, ""], Split(html, CRLF), sep);
  }

  /** The message's lines, grouped as the opening delimiter, the plain part, and the rest. */
  lemma MessageLinesGrouped(sep: string, plain: string, html: string)
    requires '\r' !in sep
    ensures Split(Message(sep, plain, html), CRLF)
      == [Delimiter(sep)] + (([PlainType, Encoding, ""] + Split(plain, CRLF))
         + ([Delimiter(sep)] + (([HtmlType, Encoding, ""] + Split(html, CRLF)) + [CloseDelimiter(sep)])))
  {
    var d := Delimiter(sep);
    MessageLines(sep, plain, html);
    assert [d, PlainType, Encoding, ""] == [d] + [PlainType, Encoding, ""];
    assert [d, HtmlType, Encoding, ""] == [d] + [HtmlType, Encoding, ""];
    Regroup(d, CloseDelimiter(sep), [PlainType, Encoding, ""], Split(plain, CRLF), [HtmlType, Encoding, ""], Split(html, CRLF));
  }

  lemma Regroup(d: string, c: string, hx: seq<string>, px: seq<string>, hy: seq<string>, py: seq<string>)
    ensures ([d] + hx) + px + ([d] + hy) + py + [c] == [d] + ((hx + px) + ([d] + ((hy + py) + [c])))
  {
  }

  /**
   * Reading the assembled body back with its boundary yields two parts, the
   * plain one first and the HTML one last, each with its own Content-Type
   * and exactly the content it was built from, provided no line of either
   * content is itself a delimiter line.
   */
  lemma MessageRoundTrip(sep: string, plain: string, html: string)
    requires '\r' !in sep
    requires NoDelimiterLine(plain, sep) && NoDelimiterLine(html, sep)
    ensures ParseMultipart(Message(sep, plain, html), sep)
      == Some([Part([PlainType, Encoding], plain), Part([HtmlType, Encoding], html)])
  {
    MessageGroups(sep, plain, html);
    var xs := [PlainType, Encoding, ""] + Split(plain, CRLF);
    var ys := [HtmlType, Encoding, ""] + Split(html, CRLF);
    PartOfLayout([PlainType, Encoding], Split(plain, CRLF));
    PartOfLayout([HtmlType, Encoding], Split(html, CRLF));
    assert xs == [PlainType, Encoding] + [""] + Split(plain, CRLF);
    assert ys == [HtmlType, Encoding] + [""] + Split(html, CRLF);
    JoinSplit(plain, CRLF);
    JoinSplit(html, CRLF);
    var groups := [xs, ys];
    assert seq(|groups|, i requires 0 <= i < |groups| => PartOf(groups[i])) == [PartOf(xs), PartOf(ys)];
  }
}
