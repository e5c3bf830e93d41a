/**
 * PHP's `htmlspecialchars($s, ENT_QUOTES, 'UTF-8')` on well-formed text,
 * the decoding of the five entities it produces, and the sanitiser that
 * trims before escaping.
 */
module Html {
  import opened Strings

  /** The characters `htmlspecialchars` replaces under ENT_QUOTES. */
  predicate IsSpecial(c: char) {
    c == '&' || c == '<' || c == '>' || c == '"' || c == '\''
  }

  /** Characters that could open a tag or end an attribute value. */
  predicate IsMarkup(c: char) {
    c == '<' || c == '>' || c == '"' || c == '\''
  }

  /** `s` can be placed in HTML text or a quoted attribute as it is. */
  predicate Safe(s: string) {
    forall k :: 0 <= k < |s| ==> !IsMarkup(s[k])
  }

  predicate NoSpecial(s: string) {
    forall k :: 0 <= k < |s| ==> !IsSpecial(s[k])
  }

  /** One of the five entities `htmlspecialchars` writes under ENT_QUOTES starts at `s[k..]`. */
  predicate EntityAt(s: string, k: nat)
    requires k <= |s|
  {
    var t := s[k..];
    StartsWith(t, "&amp;") || StartsWith(t, "&lt;") || StartsWith(t, "&gt;")
    || StartsWith(t, "&quot;") || StartsWith(t, "&#039;")
  }

  /** Every ampersand in `s` opens one of the five entities: there is no bare `&`. */
  predicate AmpersandsEncoded(s: string) {
    forall k :: 0 <= k < |s| && s[k] == '&' ==> EntityAt(s, k)
  }

  /** The HTML 4.01 entity for a special character; any other character stands for itself. */
  function EscapeChar(c: char): (r: string)
    ensures Safe(r)
    ensures !IsSpecial(c) ==> r == [c]
    ensures IsSpecial(c) ==> |r| >= 4 && r[0] == '&' && r[|r| - 1] == ';'
  {
    match c
    case '&' => "&amp;"
    case '<' => "&lt;"
    case '>' => "&gt;"
    case '"' => "&quot;"
    case '\'' => "&#039;"
    case _ => [c]
  }

  /** `htmlspecialchars` with ENT_QUOTES: every special character is replaced, in place. */
  function Escape(s: string): (r: string)
    ensures Safe(r)
    ensures AmpersandsEncoded(r)
    ensures |r| >= |s|
  {
    if |s| == 0 then ""
    else
      EscapeCharEncoded(s[0]);
      EncodedAppend(EscapeChar(s[0]), Escape(s[1..]));
      EscapeChar(s[0]) + Escape(s[1..])
  }

  lemma EscapeCharEncoded(c: char)
    ensures AmpersandsEncoded(EscapeChar(c))
  {
    var e := EscapeChar(c);
    forall k | 0 <= k < |e| && e[k] == '&' ensures EntityAt(e, k) {
      assert k == 0;
      assert e[0..] == e;
    }
  }

  /** Entities are kept whole by concatenation, so the absence of a bare `&` is too. */
  lemma EncodedAppend(a: string, b: string)
    requires AmpersandsEncoded(a) && AmpersandsEncoded(b)
    ensures AmpersandsEncoded(a + b)
  {
    var ab := a + b;
    forall k | 0 <= k < |ab| && ab[k] == '&' ensures EntityAt(ab, k) {
      if k < |a| {
        assert ab[k] == a[k];
        assert EntityAt(a, k);
        EntityKept(a[k..], b);
        assert ab[k..] == a[k..] + b;
      } else {
        assert ab[k] == b[k - |a|];
        assert EntityAt(b, k - |a|);
        assert ab[k..] == b[k - |a|..];
      }
    }
  }

  lemma EntityKept(t: string, b: string)
    requires EntityAt(t, 0)
    ensures EntityAt(t + b, 0)
  {
    assert t[0..] == t && (t + b)[0..] == t + b;
    PrefixExtends(t, b, "&amp;");
    PrefixExtends(t, b, "&lt;");
    PrefixExtends(t, b, "&gt;");
    PrefixExtends(t, b, "&quot;");
    PrefixExtends(t, b, "&#039;");
  }

  /** Decodes the five entities `Escape` writes; anything else is copied. */
  function Unescape(t: string): string
    decreases |t|
  {
    if |t| == 0 then ""
    else if StartsWith(t, "&amp;") then "&" + Unescape(t[5..])
    else if StartsWith(t, "&lt;") then "<" + Unescape(t[4..])
    else if StartsWith(t, "&gt;") then ">" + Unescape(t[4..])
    else if StartsWith(t, "&quot;") then "\"" + Unescape(t[6..])
    else if StartsWith(t, "&#039;") then "'" + Unescape(t[6..])
    else [t[0]] + Unescape(t[1..])
  }

  /** Escaping loses nothing: decoding the entities gives the original text back. */
  lemma {:induction false} UnescapeEscape(s: string)
    ensures Unescape(Escape(s)) == s
  {
    if |s| > 0 {
      UnescapeEscape(s[1..]);
      UnescapeStep(s[0], Escape(s[1..]));
      assert s == [s[0]] + s[1..];
    }
  }

  /** Decoding reads one escaped character back and then carries on with the rest. */
  lemma UnescapeStep(c: char, rest: string)
    ensures Unescape(EscapeChar(c) + rest) == [c] + Unescape(rest)
  {
    var e := EscapeChar(c);
    var t := e + rest;
    assert t[..|e|] == e && t[|e|..] == rest;
    if c == '&' {
      assert StartsWith(t, "&amp;");
    } else if c == '<' {
      assert !StartsWith(t, "&amp;") by { assert t[1] == 'l'; }
      assert StartsWith(t, "&lt;");
    } else if c == '>' {
      assert !StartsWith(t, "&amp;") && !StartsWith(t, "&lt;") by { assert t[1] == 'g'; }
      assert StartsWith(t, "&gt;");
    } else if c == '"' {
      assert !StartsWith(t, "&amp;") && !StartsWith(t, "&lt;") && !StartsWith(t, "&gt;") by { assert t[1] == 'q'; }
      assert StartsWith(t, "&quot;");
    } else if c == '\'' {
      assert !StartsWith(t, "&amp;") && !StartsWith(t, "&lt;") && !StartsWith(t, "&gt;") && !StartsWith(t, "&quot;") by { assert t[1] == '#'; }
      assert StartsWith(t, "&#039;");
    } else {
      assert t[0] == c && t[1..] == rest;
      assert !StartsWith(t, "&amp;") && !StartsWith(t, "&lt;") && !StartsWith(t, "&gt;");
      assert !StartsWith(t, "&quot;") && !StartsWith(t, "&#039;");
    }
  }

  /**
   * The converse of `UnescapeEscape` on escaped-looking text: a string with
   * no markup character and no bare `&` is the escape of what it decodes to.
   */
  lemma {:induction false} EscapeUnescape(r: string)
    requires Safe(r) && AmpersandsEncoded(r)
    ensures Escape(Unescape(r)) == r
    decreases |r|
  {
    if |r| == 0 {
    } else if StartsWith(r, "&amp;") {
      SuffixEncoded(r, 5);
      EscapeUnescape(r[5..]);
      EntityBack(r, "&amp;", '&');
    } else if StartsWith(r, "&lt;") {
      SuffixEncoded(r, 4);
      EscapeUnescape(r[4..]);
      EntityBack(r, "&lt;", '<');
    } else if StartsWith(r, "&gt;") {
      SuffixEncoded(r, 4);
      EscapeUnescape(r[4..]);
      EntityBack(r, "&gt;", '>');
    } else if StartsWith(r, "&quot;") {
      SuffixEncoded(r, 6);
      EscapeUnescape(r[6..]);
      EntityBack(r, "&quot;", '"');
    } else if StartsWith(r, "&#039;") {
      SuffixEncoded(r, 6);
      EscapeUnescape(r[6..]);
      EntityBack(r, "&#039;", '\'');
    } else {
      assert r[0..] == r;
      assert !IsSpecial(r[0]);
      SuffixEncoded(r, 1);
      EscapeUnescape(r[1..]);
      EntityBack(r, [r[0]], r[0]);
    }
  }

  /** Re-escaping the character an entity (or a plain character) decodes to restores it. */
  lemma EntityBack(r: string, e: string, c: char)
    requires StartsWith(r, e) && e == EscapeChar(c)
    requires Escape(Unescape(r[|e|..])) == r[|e|..]
    ensures Escape([c] + Unescape(r[|e|..])) == r
  {
    var u := Unescape(r[|e|..]);
    assert ([c] + u)[0] == c && ([c] + u)[1..] == u;
    assert r == e + r[|e|..];
  }

  /** Both properties survive dropping a prefix. */
  lemma SuffixEncoded(r: string, n: nat)
    requires n <= |r| && Safe(r) && AmpersandsEncoded(r)
    ensures Safe(r[n..]) && AmpersandsEncoded(r[n..])
  {
    var t := r[n..];
    forall k | 0 <= k < |t| ensures !IsMarkup(t[k]) && (t[k] == '&' ==> EntityAt(t, k)) {
      assert t[k] == r[n + k];
      assert t[k..] == r[n + k..];
    }
  }

  /** Escaping changes a string exactly when it holds a special character. */
  lemma {:induction false} EscapeIdentity(s: string)
    ensures Escape(s) == s <==> NoSpecial(s)
  {
    if |s| > 0 {
      EscapeIdentity(s[1..]);
      var c := s[0];
      var rest := Escape(s[1..]);
      assert Escape(s) == EscapeChar(c) + rest;
      if IsSpecial(c) {
        assert |Escape(s)| > |s|;
      } else {
        assert Escape(s) == [c] + rest;
        assert s == [c] + s[1..];
        if Escape(s) == s {
          assert rest == Escape(s)[1..] == s[1..];
        }
        assert NoSpecial(s) <==> NoSpecial(s[1..]) by {
          if NoSpecial(s[1..]) {
            forall k | 0 <= k < |s| ensures !IsSpecial(s[k]) {
              if k > 0 {
                assert s[k] == s[1..][k - 1];
              }
            }
          }
        }
      }
    }
  }

  /**
   * The handler's sanitiser for the required fields: trim, then escape.
   * The result is safe in HTML and decodes to the trimmed input.
   */
  function Sanitize(s: string): (r: string)
    ensures Safe(r)
    ensures AmpersandsEncoded(r)
    ensures Unescape(r) == Trim(s)
    ensures NoSpecial(Trim(s)) ==> r == Trim(s)
  {
    var t := Trim(s);
    UnescapeEscape(t);
    EscapeIdentity(t);
    Escape(t)
  }

  /**
   * The contract of `Sanitize` determines it: the only markup-free text
   * without a bare `&` that decodes to the trimmed input is its result.
   */
  lemma SanitizeDetermined(s: string, r: string)
    requires Safe(r) && AmpersandsEncoded(r) && Unescape(r) == Trim(s)
    ensures r == Sanitize(s)
  {
    EscapeUnescape(r);
  }
}
