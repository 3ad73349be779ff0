/** `markupsafe.escape`, which `echo` applies to the URL parameter before
    echoing it.  The library is not part of this model; what is modelled is
    its documented behaviour on `str` and `None` arguments: the argument is
    converted with `str()` (so `None` becomes the text "None") and the five
    HTML-significant characters are replaced by entities. */
module Markup {
  import opened Wrappers

  /** The characters markupsafe replaces. */
  predicate IsMarkupChar(c: char) {
    c == '&' || c == '<' || c == '>' || c == '"' || c == '\''
  }

  /** The text markupsafe writes for one character. */
  function EscapeChar(c: char): string {
    if c == '&' then "&amp;"
    else if c == '<' then "&lt;"
    else if c == '>' then "&gt;"
    else if c == '"' then "&#34;"
    else if c == '\'' then "&#39;"
    else [c]
  }

  /** `escape(s)` for a string `s`: no output character can open a tag or
      close an attribute value. */
  function EscapeText(s: string): (r: string)
    ensures |r| >= |s|
    ensures forall i :: 0 <= i < |r| ==> r[i] != '<' && r[i] != '>' && r[i] != '"' && r[i] != '\''
  {
    if |s| == 0 then "" else EscapeChar(s[0]) + EscapeText(s[1..])
  }

  /** `escape(req_param)` where `req_param` is `str | None`: `None` is first
      turned into its `str()` form, the text "None". */
  function Escape(p: Option<string>): string {
    match p
    case None => EscapeText("None")
    case Some(s) => EscapeText(s)
  }

  /** Reading the five entities back; the partner of `EscapeText`. */
  function Unescape(s: string): string
    decreases |s|
  {
    if |s| == 0 then ""
    else if "&amp;" <= s then "&" + Unescape(s[5..])
    else if "&lt;" <= s then "<" + Unescape(s[4..])
    else if "&gt;" <= s then ">" + Unescape(s[4..])
    else if "&#34;" <= s then "\"" + Unescape(s[5..])
    else if "&#39;" <= s then "'" + Unescape(s[5..])
    else [s[0]] + Unescape(s[1..])
  }

  lemma UnescapeEscapeChar(c: char, t: string)
    ensures Unescape(EscapeChar(c) + t) == [c] + Unescape(t)
  {
    var s := EscapeChar(c) + t;
    if c == '&' {
      assert s[5..] == t;
    } else if c == '<' {
      assert s[1] == 'l';
      assert s[4..] == t;
    } else if c == '>' {
      assert s[1] == 'g';
      assert s[4..] == t;
    } else if c == '"' {
      assert s[1] == '#' && s[3] == '4';
      assert s[5..] == t;
    } else if c == '\'' {
      assert s[1] == '#' && s[3] == '9';
      assert s[5..] == t;
    } else {
      assert s[0] == c;
      assert s[1..] == t;
    }
  }

  /** Escaping loses nothing: `Unescape` recovers the original text, so
      distinct strings escape to distinct strings. */
  lemma {:induction false} UnescapeEscape(s: string)
    ensures Unescape(EscapeText(s)) == s
  {
    if |s| > 0 {
      UnescapeEscapeChar(s[0], EscapeText(s[1..]));
      UnescapeEscape(s[1..]);
      assert [s[0]] + s[1..] == s;
    }
  }

  /** Text without any of the five characters passes through unchanged. */
  lemma {:induction false} EscapePlainText(s: string)
    requires forall i :: 0 <= i < |s| ==> !IsMarkupChar(s[i])
    ensures EscapeText(s) == s
  {
    if |s| > 0 {
      EscapePlainText(s[1..]);
      assert [s[0]] + s[1..] == s;
    }
  }

  /** The null parameter is rendered as the text "None", indistinguishable
      from a parameter that is literally "None"; a present parameter is
      escaped as itself. */
  lemma EscapeNoneQuirk()
    ensures Escape(None) == "None"
    ensures Escape(None) == Escape(Some("None"))
  {
    EscapePlainText("None");
  }
}
