/** `html.escape(s, quote=True)` from Python's standard library, as used on
    every user-supplied field of the page. */
module Html {

  /** Characters that may not appear raw inside an escaped field. */
  predicate Special(c: char) {
    c == '&' || c == '<' || c == '>' || c == '"' || c == '\''
  }

  /** The replacement of one character. `html.escape` replaces `&` first and
      then the other four, so no replacement is itself rewritten and the
      whole call is this mapping applied character by character. */
  function EscapeChar(c: char): (r: string)
    ensures |r| > 0
  {
    if c == '&' then "&amp;"
    else if c == '<' then "&lt;"
    else if c == '>' then "&gt;"
    else if c == '"' then "&quot;"
    else if c == '\'' then "&#x27;"
    else [c]
  }

  function Escape(s: string): (r: string)
    ensures |r| >= |s|
    ensures forall k :: 0 <= k < |r| ==> r[k] != '<' && r[k] != '>' && r[k] != '"' && r[k] != '\''
    decreases |s|
  {
    if |s| == 0 then ""
    else EscapeChar(s[0]) + Escape(s[1..])
  }

  /** The decoder for exactly the five entities `Escape` produces; any other
      `&` is kept as it is. It recovers every escaped field, which shows that
      escaping loses nothing. */
  function Unescape(r: string): string
    decreases |r|
  {
    if |r| == 0 then ""
    else if r[0] == '&' then
      if |r| >= 5 && r[..5] == "&amp;" then "&" + Unescape(r[5..])
      else if |r| >= 4 && r[..4] == "&lt;" then "<" + Unescape(r[4..])
      else if |r| >= 4 && r[..4] == "&gt;" then ">" + Unescape(r[4..])
      else if |r| >= 6 && r[..6] == "&quot;" then "\"" + Unescape(r[6..])
      else if |r| >= 6 && r[..6] == "&#x27;" then "'" + Unescape(r[6..])
      else "&" + Unescape(r[1..])
    else [r[0]] + Unescape(r[1..])
  }

  /** Escaping loses nothing: the field can be read back from the page. */
  lemma {:induction false} UnescapeEscape(s: string)
    ensures Unescape(Escape(s)) == s
    decreases |s|
  {
    if |s| > 0 {
      UnescapeEscape(s[1..]);
      UnescapeEscapeChar(s[0], Escape(s[1..]));
      assert s == [s[0]] + s[1..];
    }
  }

  /** The decoder reads one replacement back and resumes right after it. */
  lemma UnescapeEscapeChar(c: char, rest: string)
    ensures Unescape(EscapeChar(c) + rest) == [c] + Unescape(rest)
  {
    var r := EscapeChar(c) + rest;
    if c == '&' {
      assert r[..5] == "&amp;" && r[5..] == rest;
    } else if c == '<' {
      assert r[..4] == "&lt;" && r[4..] == rest;
      assert r[1] == 'l';
    } else if c == '>' {
      assert r[..4] == "&gt;" && r[4..] == rest;
      assert r[1] == 'g';
    } else if c == '"' {
      assert r[..6] == "&quot;" && r[6..] == rest;
      assert r[1] == 'q';
    } else if c == '\'' {
      assert r[..6] == "&#x27;" && r[6..] == rest;
      assert r[1] == '#';
    } else {
      assert r[0] == c && r[1..] == rest;
    }
  }

  /** Distinct fields stay distinct once escaped. */
  lemma EscapeInjective(s: string, t: string)
    requires Escape(s) == Escape(t)
    ensures s == t
  {
    UnescapeEscape(s);
    UnescapeEscape(t);
  }

  /** Text without any of the five characters is left alone. */
  lemma {:induction false} EscapePlain(s: string)
    requires forall k :: 0 <= k < |s| ==> !Special(s[k])
    ensures Escape(s) == s
    decreases |s|
  {
    if |s| > 0 {
      EscapePlain(s[1..]);
    }
  }

  /** A tag in a release title is shown as text, not markup. */
  lemma ExampleBoldTag()
    ensures Escape("<b>") == "&lt;b&gt;"
  {
    assert Escape(">") == "&gt;" by {
      assert ">"[1..] == "";
    }
    assert Escape("b>") == "b&gt;" by {
      assert "b>"[1..] == ">";
    }
    assert "<b>"[1..] == "b>";
  }
}
