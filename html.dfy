/**
 * `escapeHtml`: five global replacements, `&` first, so that the result holds
 * none of `<`, `>`, `"`, `'` and decodes back to the input.
 */
module Html {

  /** `s.replace(/c/g, replacement)` for a one-character pattern. */
  function ReplaceAll(s: string, c: char, replacement: string): string
    decreases |s|
  {
    if s == [] then []
    else (if s[0] == c then replacement else [s[0]]) + ReplaceAll(s[1..], c, replacement)
  }

  /** `escapeHtml(unsafe)`. */
  function EscapeHtml(unsafe: string): string
  {
    if unsafe == "" then "" else Chain(unsafe)
  }

  /** The entity each special character is written as; other characters stand for themselves. */
  function EscapeChar(c: char): string
  {
    if c == '&' then "&amp;"
    else if c == '<' then "&lt;"
    else if c == '>' then "&gt;"
    else if c == '"' then "&quot;"
    else if c == '\'' then "&#039;"
    else [c]
  }

  /** Character-by-character escaping, the reference for the replacement chain. */
  function EscapeChars(s: string): string
    decreases |s|
  {
    if s == [] then [] else EscapeChar(s[0]) + EscapeChars(s[1..])
  }

  /** A decoder for the five entities: each is turned back into its character. */
  function Unescape(s: string): string
    decreases |s|
  {
    if s == [] then []
    else if s[0] != '&' then [s[0]] + Unescape(s[1..])
    else if |s| >= 5 && s[..5] == "&amp;" then "&" + Unescape(s[5..])
    else if |s| >= 4 && s[..4] == "&lt;" then "<" + Unescape(s[4..])
    else if |s| >= 4 && s[..4] == "&gt;" then ">" + Unescape(s[4..])
    else if |s| >= 6 && s[..6] == "&quot;" then "\"" + Unescape(s[6..])
    else if |s| >= 6 && s[..6] == "&#039;" then "'" + Unescape(s[6..])
    else [s[0]] + Unescape(s[1..])
  }

  lemma {:induction false} ReplaceAllAppend(a: string, b: string, c: char, replacement: string)
    ensures ReplaceAll(a + b, c, replacement) == ReplaceAll(a, c, replacement) + ReplaceAll(b, c, replacement)
    decreases |a|
  {
    if a != [] {
      assert (a + b)[0] == a[0] && (a + b)[1..] == a[1..] + b;
      ReplaceAllAppend(a[1..], b, c, replacement);
    } else {
      assert a + b == b;
    }
  }

  /** Replacing a character that does not occur changes nothing. */
  lemma {:induction false} ReplaceAllAbsent(s: string, c: char, replacement: string)
    requires c !in s
    ensures ReplaceAll(s, c, replacement) == s
    decreases |s|
  {
    if s != [] {
      ReplaceAllAbsent(s[1..], c, replacement);
      assert s == [s[0]] + s[1..];
    }
  }

  /**
   * After a replacement a character `d` is absent when the replacement lacks it
   * and it was either the replaced character or absent before.
   */
  lemma {:induction false} ReplaceAllKeepsOut(s: string, c: char, replacement: string, d: char)
    requires d == c || d !in s
    requires d !in replacement
    ensures d !in ReplaceAll(s, c, replacement)
    decreases |s|
  {
    if s != [] {
      ReplaceAllKeepsOut(s[1..], c, replacement, d);
      assert d !in (if s[0] == c then replacement else [s[0]]);
    }
  }

  /**
   * The escaped text holds none of `<`, `>`, `"` and `'`, and the empty string
   * comes back empty.
   */
  lemma EscapeHtmlSafe(unsafe: string)
    ensures unsafe == "" ==> EscapeHtml(unsafe) == ""
    ensures var r := EscapeHtml(unsafe); '<' !in r && '>' !in r && '"' !in r && '\'' !in r
  {
    if unsafe != "" {
      var s1 := ReplaceAll(unsafe, '&', "&amp;");
      var s2 := ReplaceAll(s1, '<', "&lt;");
      ReplaceAllKeepsOut(s1, '<', "&lt;", '<');
      var s3 := ReplaceAll(s2, '>', "&gt;");
      ReplaceAllKeepsOut(s2, '>', "&gt;", '<');
      ReplaceAllKeepsOut(s2, '>', "&gt;", '>');
      var s4 := ReplaceAll(s3, '"', "&quot;");
      ReplaceAllKeepsOut(s3, '"', "&quot;", '<');
      ReplaceAllKeepsOut(s3, '"', "&quot;", '>');
      ReplaceAllKeepsOut(s3, '"', "&quot;", '"');
      ReplaceAllKeepsOut(s4, '\'', "&#039;", '<');
      ReplaceAllKeepsOut(s4, '\'', "&#039;", '>');
      ReplaceAllKeepsOut(s4, '\'', "&#039;", '"');
      ReplaceAllKeepsOut(s4, '\'', "&#039;", '\'');
    }
  }

  /** The replacement chain, without the empty-input guard. */
  function Chain(s: string): string
  {
    ReplaceAll(ReplaceAll(ReplaceAll(ReplaceAll(ReplaceAll(
      s, '&', "&amp;"), '<', "&lt;"), '>', "&gt;"), '"', "&quot;"), '\'', "&#039;")
  }

  lemma ChainAppend(a: string, b: string)
    ensures Chain(a + b) == Chain(a) + Chain(b)
  {
    var a1, b1 := ReplaceAll(a, '&', "&amp;"), ReplaceAll(b, '&', "&amp;");
    ReplaceAllAppend(a, b, '&', "&amp;");
    var a2, b2 := ReplaceAll(a1, '<', "&lt;"), ReplaceAll(b1, '<', "&lt;");
    ReplaceAllAppend(a1, b1, '<', "&lt;");
    var a3, b3 := ReplaceAll(a2, '>', "&gt;"), ReplaceAll(b2, '>', "&gt;");
    ReplaceAllAppend(a2, b2, '>', "&gt;");
    var a4, b4 := ReplaceAll(a3, '"', "&quot;"), ReplaceAll(b3, '"', "&quot;");
    ReplaceAllAppend(a3, b3, '"', "&quot;");
    ReplaceAllAppend(a4, b4, '\'', "&#039;");
  }

  lemma ReplaceSingle(c: char, replacement: string)
    ensures ReplaceAll([c], c, replacement) == replacement
  {
    assert [c][1..] == [];
  }

  /** The stages after the `&` stage leave text without their characters alone. */
  lemma {:induction false} StagesAfterAmpKeep(e: string)
    requires '<' !in e && '>' !in e && '"' !in e && '\'' !in e
    ensures ReplaceAll(ReplaceAll(ReplaceAll(ReplaceAll(
      e, '<', "&lt;"), '>', "&gt;"), '"', "&quot;"), '\'', "&#039;") == e
  {
    ReplaceAllAbsent(e, '<', "&lt;");
    ReplaceAllAbsent(e, '>', "&gt;");
    ReplaceAllAbsent(e, '"', "&quot;");
    ReplaceAllAbsent(e, '\'', "&#039;");
  }

  /** `&` becomes `&amp;`, whose characters no later stage touches. */
  lemma ChainAmp()
    ensures Chain("&") == "&amp;"
  {
    var c := '&';
    ReplaceSingle(c, "&amp;");
    StagesAfterAmpKeep("&amp;");
  }

  /** `<` passes the `&` stage and becomes `&lt;`. */
  lemma ChainLt()
    ensures Chain("<") == "&lt;"
  {
    var c := '<';
    ReplaceAllAbsent([c], '&', "&amp;");
    ReplaceSingle(c, "&lt;");
    StagesAfterLtKeep("&lt;");
  }

  /** The stages after the `<` stage leave text without their characters alone. */
  lemma {:induction false} StagesAfterLtKeep(e: string)
    requires '>' !in e && '"' !in e && '\'' !in e
    ensures ReplaceAll(ReplaceAll(ReplaceAll(e, '>', "&gt;"), '"', "&quot;"), '\'', "&#039;") == e
  {
    ReplaceAllAbsent(e, '>', "&gt;");
    ReplaceAllAbsent(e, '"', "&quot;");
    ReplaceAllAbsent(e, '\'', "&#039;");
  }

  /** `>` passes the first two stages and becomes `&gt;`. */
  lemma ChainGt()
    ensures Chain(">") == "&gt;"
  {
    var c := '>';
    ReplaceAllAbsent([c], '&', "&amp;");
    ReplaceAllAbsent([c], '<', "&lt;");
    ReplaceSingle(c, "&gt;");
    StagesAfterGtKeep("&gt;");
  }

  /** The stages after the `>` stage leave text without their characters alone. */
  lemma {:induction false} StagesAfterGtKeep(e: string)
    requires '"' !in e && '\'' !in e
    ensures ReplaceAll(ReplaceAll(e, '"', "&quot;"), '\'', "&#039;") == e
  {
    ReplaceAllAbsent(e, '"', "&quot;");
    ReplaceAllAbsent(e, '\'', "&#039;");
  }

  /** `"` passes the first three stages and becomes `&quot;`. */
  lemma ChainQuot()
    ensures Chain("\"") == "&quot;"
  {
    var c := '"';
    var e := "&quot;";
    ReplaceAllAbsent([c], '&', "&amp;");
    ReplaceAllAbsent([c], '<', "&lt;");
    ReplaceAllAbsent([c], '>', "&gt;");
    ReplaceSingle(c, e);
    ReplaceAllAbsent(e, '\'', "&#039;");
  }

  /** `'` passes the first four stages and becomes `&#039;`. */
  lemma ChainApos()
    ensures Chain("'") == "&#039;"
  {
    var c := '\'';
    ReplaceAllAbsent([c], '&', "&amp;");
    ReplaceAllAbsent([c], '<', "&lt;");
    ReplaceAllAbsent([c], '>', "&gt;");
    ReplaceAllAbsent([c], '"', "&quot;");
    ReplaceSingle(c, "&#039;");
  }

  /** A character that is not special passes through every stage. */
  lemma ChainPlain(c: char)
    requires c !in "&<>\"'"
    ensures Chain([c]) == [c]
  {
    var one := [c];
    ReplaceAllAbsent(one, '&', "&amp;");
    ReplaceAllAbsent(one, '<', "&lt;");
    ReplaceAllAbsent(one, '>', "&gt;");
    ReplaceAllAbsent(one, '"', "&quot;");
    ReplaceAllAbsent(one, '\'', "&#039;");
  }

  /**
   * On one character the chain gives that character's entity: because `&` is
   * replaced first, the `&` of a later entity is never escaped again.
   */
  lemma ChainChar(c: char)
    ensures Chain([c]) == EscapeChar(c)
  {
    if c == '&' {
      ChainAmp();
    } else if c == '<' {
      ChainLt();
    } else if c == '>' {
      ChainGt();
    } else if c == '"' {
      ChainQuot();
    } else if c == '\'' {
      ChainApos();
    } else {
      ChainPlain(c);
    }
  }

  /** The replacement chain escapes character by character. */
  lemma {:induction false} ChainIsEscapeChars(s: string)
    ensures Chain(s) == EscapeChars(s)
    decreases |s|
  {
    if s != [] {
      assert s == [s[0]] + s[1..];
      ChainAppend([s[0]], s[1..]);
      ChainChar(s[0]);
      ChainIsEscapeChars(s[1..]);
    }
  }

  /** The text `e + rest` starts with `e` and continues with `rest`. */
  lemma FrontOf(e: string, rest: string)
    requires |e| >= 2
    ensures (e + rest)[..|e|] == e && (e + rest)[|e|..] == rest
    ensures (e + rest)[0] == e[0] && (e + rest)[1] == e[1]
  {
  }

  /** A character other than `&` at the front of the text is kept. */
  lemma UnescapeOther(c: char, rest: string)
    requires c != '&'
    ensures Unescape([c] + rest) == [c] + Unescape(rest)
  {
    var s := [c] + rest;
    assert s[0] == c && s[1..] == rest;
  }

  /** Decoding an escaped character gives the character back, whatever follows. */
  lemma UnescapeChar(c: char, rest: string)
    ensures Unescape(EscapeChar(c) + rest) == [c] + Unescape(rest)
  {
    if c == '&' {
      assert Unescape("&amp;" + rest) == "&" + Unescape(rest) by { FrontOf("&amp;", rest); }
    } else if c == '<' {
      assert Unescape("&lt;" + rest) == "<" + Unescape(rest) by { FrontOf("&lt;", rest); }
    } else if c == '>' {
      assert Unescape("&gt;" + rest) == ">" + Unescape(rest) by { FrontOf("&gt;", rest); }
    } else if c == '"' {
      assert Unescape("&quot;" + rest) == "\"" + Unescape(rest) by { FrontOf("&quot;", rest); }
    } else if c == '\'' {
      assert Unescape("&#039;" + rest) == "'" + Unescape(rest) by { FrontOf("&#039;", rest); }
    } else {
      UnescapeOther(c, rest);
    }
  }

  lemma {:induction false} UnescapeEscapeChars(s: string)
    ensures Unescape(EscapeChars(s)) == s
    decreases |s|
  {
    if s != [] {
      UnescapeEscapeChars(s[1..]);
      UnescapeChar(s[0], EscapeChars(s[1..]));
      assert s == [s[0]] + s[1..];
    }
  }

  /** Decoding the five entities of an escaped string gives back the original. */
  lemma EscapeRoundTrip(s: string)
    ensures Unescape(EscapeHtml(s)) == s
  {
    ChainIsEscapeChars(s);
    UnescapeEscapeChars(s);
  }

  /** Text without special characters is left as it is. */
  lemma EscapePlainText(s: string)
    requires forall k :: 0 <= k < |s| ==> s[k] !in "&<>\"'"
    ensures EscapeHtml(s) == s
  {
    ReplaceAllAbsent(s, '&', "&amp;");
    ReplaceAllAbsent(s, '<', "&lt;");
    ReplaceAllAbsent(s, '>', "&gt;");
    ReplaceAllAbsent(s, '"', "&quot;");
    ReplaceAllAbsent(s, '\'', "&#039;");
  }
}
