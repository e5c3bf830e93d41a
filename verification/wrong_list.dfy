/**
 * The two views of the wrong-answer list: an HTML `<li>` fragment and a
 * plain-text bullet list, built from the same items in the same order with
 * the same placeholders and the same escaping.
 */
module WrongList {
  import opened Wrappers
  import opened Html
  import opened Lines
  import opened Request

  /** The three values one item contributes to either view. */
  datatype Entry = Entry(nr: string, user: string, correct: string)

  /**
   * Placeholders for missing sub-fields (`?` for the question number and the
   * correct answer, `brak` for the user's answer); the two answers are
   * escaped, the question number is used as given.
   */
  function EntryOf(item: WrongItem): (e: Entry)
    ensures item.nr.None? ==> e.nr == "?"
    ensures item.nr.Some? ==> e.nr == item.nr.value
    ensures item.user.None? ==> e.user == "brak"
    ensures item.user.Some? ==> Unescape(e.user) == item.user.value
    ensures item.correct.None? ==> e.correct == "?"
    ensures item.correct.Some? ==> Unescape(e.correct) == item.correct.value
    ensures Safe(e.user) && Safe(e.correct)
    ensures AmpersandsEncoded(e.user) && AmpersandsEncoded(e.correct)
  {
    UnescapeEscape(item.user.ValueOr(""));
    UnescapeEscape(item.correct.ValueOr(""));
    var user := if item.user.Some? then Escape(item.user.value) else "brak";
    var correct := if item.correct.Some? then Escape(item.correct.value) else "?";
    PlaceholdersPlain();
    Entry(item.nr.ValueOr("?"), user, correct)
  }

  /** The answer placeholders hold no markup and no `&`, so they read as text in HTML. */
  lemma PlaceholdersPlain()
    ensures Safe("brak") && Safe("?") && AmpersandsEncoded("brak") && AmpersandsEncoded("?")
  {
    assert forall k :: 0 <= k < 4 ==> "brak"[k] in "brak";
  }

  /** The fixed entries shown when there are no wrong answers. */
  const EmptyHtml: string := "<li style='color: green;'>✅ BRAK - wszystkie odpowiedzi poprawne!</li>"
  const EmptyPlainText: string := "- BRAK - wszystkie odpowiedzi poprawne!"
  const EmptyPlain: string := EmptyPlainText + LF

  function HtmlLine(e: Entry): string {
    "<li>❌ <strong>Pytanie " + e.nr + ":</strong> użytkownik wybrał '<strong>" + e.user
    + "</strong>', poprawna odpowiedź to '<strong>" + e.correct + "</strong>'</li>"
  }

  /** A plain-text entry without its line feed. */
  function PlainText(e: Entry): string {
    "  - Pytanie " + e.nr + ": użytkownik wybrał '" + e.user + "', poprawna odpowiedź to '" + e.correct + "'"
  }

  function PlainLine(e: Entry): string {
    PlainText(e) + LF
  }

  /** The `foreach` loop of the handler: each item's line is appended to what came before. */
  function Accumulate(items: seq<WrongItem>, line: Entry -> string): string
  {
    if |items| == 0 then ""
    else Accumulate(items[..|items| - 1], line) + line(EntryOf(items[|items| - 1]))
  }

  function RenderHtml(items: seq<WrongItem>): string {
    if |items| == 0 then EmptyHtml else Accumulate(items, HtmlLine)
  }

  function RenderPlain(items: seq<WrongItem>): string {
    if |items| == 0 then EmptyPlain else Accumulate(items, PlainLine)
  }

  /** Concatenation of a list of strings, front to back. */
  function Concat(ss: seq<string>): string
  {
    if |ss| == 0 then "" else ss[0] + Concat(ss[1..])
  }

  /** One line per item, in input order. */
  function LinesFor(items: seq<WrongItem>, line: Entry -> string): (ls: seq<string>)
    ensures |ls| == |items|
    ensures forall i :: 0 <= i < |items| ==> ls[i] == line(EntryOf(items[i]))
  {
    seq(|items|, i requires 0 <= i < |items| => line(EntryOf(items[i])))
  }

  lemma {:induction false} ConcatSnoc(ss: seq<string>, x: string)
    ensures Concat(ss + [x]) == Concat(ss) + x
  {
    if |ss| > 0 {
      assert (ss + [x])[1..] == ss[1..] + [x];
      ConcatSnoc(ss[1..], x);
    } else {
      assert ss + [x] == [x];
    }
  }

  /**
   * Appending in a loop yields each item's line once, in input order: the
   * accumulated text is the concatenation of the per-item lines.
   */
  lemma {:induction false} AccumulateInOrder(items: seq<WrongItem>, line: Entry -> string)
    ensures Accumulate(items, line) == Concat(LinesFor(items, line))
  {
    if |items| > 0 {
      var n := |items| - 1;
      AccumulateInOrder(items[..n], line);
      assert LinesFor(items, line) == LinesFor(items[..n], line) + [line(EntryOf(items[n]))];
      ConcatSnoc(LinesFor(items[..n], line), line(EntryOf(items[n])));
    }
  }

  /**
   * The two views: an empty list shows the fixed entry in both; otherwise
   * each view holds one entry per item, in input order, built from the same
   * `EntryOf` values.
   */
  lemma ViewsInOrder(items: seq<WrongItem>)
    ensures |items| == 0 ==> RenderHtml(items) == EmptyHtml && RenderPlain(items) == EmptyPlain
    ensures |items| > 0 ==> RenderHtml(items) == Concat(LinesFor(items, HtmlLine))
    ensures |items| > 0 ==> RenderPlain(items) == Concat(LinesFor(items, PlainLine))
  {
    AccumulateInOrder(items, HtmlLine);
    AccumulateInOrder(items, PlainLine);
  }

  predicate OneLine(o: Option<string>) {
    o.Some? ==> '\n' !in o.value
  }

  /** No sub-field of any item contains a line feed. */
  predicate NoLineBreaks(items: seq<WrongItem>) {
    forall i :: 0 <= i < |items| ==> OneLine(items[i].nr) && OneLine(items[i].user) && OneLine(items[i].correct)
  }

  /** Escaping neither introduces nor removes line feeds. */
  lemma {:induction false} EscapeKeepsLineFeeds(s: string)
    ensures '\n' in Escape(s) <==> '\n' in s
  {
    if |s| > 0 {
      EscapeKeepsLineFeeds(s[1..]);
      assert Escape(s) == EscapeChar(s[0]) + Escape(s[1..]);
      assert s == [s[0]] + s[1..];
    }
  }

  lemma EntryOneLine(item: WrongItem)
    requires OneLine(item.nr) && OneLine(item.user) && OneLine(item.correct)
    ensures '\n' !in PlainText(EntryOf(item))
  {
    var e := EntryOf(item);
    if item.user.Some? {
      EscapeKeepsLineFeeds(item.user.value);
    }
    if item.correct.Some? {
      EscapeKeepsLineFeeds(item.correct.value);
    }
    assert '\n' !in e.nr && '\n' !in e.user && '\n' !in e.correct;
    assert '\n' !in "  - Pytanie " && '\n' !in ": użytkownik wybrał '";
    assert '\n' !in "', poprawna odpowiedź to '" && '\n' !in "'";
  }

  /** Terminated lines without inner line feeds split back into exactly those lines. */
  lemma {:induction false} SplitTerminated(ls: seq<string>)
    requires forall i :: 0 <= i < |ls| ==> '\n' !in ls[i]
    ensures Split(Concat(seq(|ls|, i requires 0 <= i < |ls| => ls[i] + LF)), LF) == ls + [""]
  {
    var joined := seq(|ls|, i requires 0 <= i < |ls| => ls[i] + LF);
    if |ls| == 0 {
      assert Concat(joined) == "";
    } else {
      var tail := seq(|ls| - 1, i requires 0 <= i < |ls| - 1 => ls[1..][i] + LF);
      assert joined[1..] == tail;
      SplitTerminated(ls[1..]);
      SeparatorsUnbordered();
      SplitAppend(ls[0], LF, Concat(tail));
      AbsentWithoutLead(ls[0], LF);
      SplitAbsent(ls[0], LF);
      assert ls == [ls[0]] + ls[1..];
    }
  }

  /**
   * When no sub-field holds a line feed, the plain view splits on line feeds
   * into one line per item in input order (or the single fixed line), and
   * every entry, the last included, ends with a line feed.
   */
  lemma PlainViewLines(items: seq<WrongItem>)
    requires NoLineBreaks(items)
    ensures |items| == 0 ==> Split(RenderPlain(items), LF) == [EmptyPlainText, ""]
    ensures |items| > 0 ==> Split(RenderPlain(items), LF) == LinesFor(items, PlainText) + [""]
  {
    if |items| == 0 {
      SplitTerminated([EmptyPlainText]);
      assert seq(1, i requires 0 <= i < 1 => [EmptyPlainText][i] + LF) == [EmptyPlain];
      assert Concat([EmptyPlain]) == EmptyPlain;
    } else {
      var ls := LinesFor(items, PlainText);
      forall i | 0 <= i < |ls| ensures '\n' !in ls[i] {
        EntryOneLine(items[i]);
      }
      SplitTerminated(ls);
      AccumulateInOrder(items, PlainLine);
      assert seq(|ls|, i requires 0 <= i < |ls| => ls[i] + LF) == LinesFor(items, PlainLine);
    }
  }

  /** The documented single-item example: the fields land in the entry unchanged. */
  lemma PlainExample()
    ensures RenderPlain([WrongItem(Some("3"), Some("B"), Some("A"))]) == PlainLine(Entry("3", "B", "A"))
  {
    var item := WrongItem(Some("3"), Some("B"), Some("A"));
    assert Escape("B") == "B" && Escape("A") == "A";
    assert EntryOf(item) == Entry("3", "B", "A");
    assert [item][..0] == [];
    assert Accumulate([item], PlainLine) == Accumulate([], PlainLine) + PlainLine(EntryOf(item));
  }

  /** A missing answer shows its placeholder; markup in an answer is escaped. */
  lemma HtmlExample()
    ensures RenderHtml([WrongItem(Some("3"), None, Some("<b>"))]) == HtmlLine(Entry("3", "brak", "&lt;b&gt;"))
  {
    var item := WrongItem(Some("3"), None, Some("<b>"));
    assert Escape("<b>") == "&lt;b&gt;" by {
      assert Escape(">") == "&gt;";
      assert Escape("b>") == "b&gt;";
    }
    assert EntryOf(item) == Entry("3", "brak", "&lt;b&gt;");
    assert [item][..0] == [];
    assert Accumulate([item], HtmlLine) == Accumulate([], HtmlLine) + HtmlLine(EntryOf(item));
  }
}
