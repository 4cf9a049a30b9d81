/**
  escapeHtml of the web client: text placed into markup has its five
  markup-significant characters replaced by entities. A missing or empty
  value renders as the empty string. `Unescape` reads the five entities back;
  it is the partner the escaping is proved against.
 */
module Html {
  import opened Model

  /** The characters the escape map covers. */
  predicate IsSpecial(c: char)
  {
    c == '&' || c == '<' || c == '>' || c == '"' || c == '\''
  }

  /** No character that can open a tag or end an attribute value. */
  predicate MarkupFree(s: string)
  {
    forall i :: 0 <= i < |s| ==> s[i] != '<' && s[i] != '>' && s[i] != '"' && s[i] != '\''
  }

  /** The replacement of one character. */
  function EscapeChar(c: char): (s: string)
    ensures !IsSpecial(c) ==> s == [c]
    ensures IsSpecial(c) ==> 4 <= |s| && s[0] == '&' && s[|s| - 1] == ';'
    ensures MarkupFree(s)
  {
    if c == '&' then "&amp;"
    else if c == '<' then "&lt;"
    else if c == '>' then "&gt;"
    else if c == '"' then "&quot;"
    else if c == '\'' then "&#039;"
    else [c]
  }

  /** The global replace over the text, one character at a time. */
  function Escape(s: string): (r: string)
    ensures |r| >= |s|
    ensures MarkupFree(r)
    ensures (forall i :: 0 <= i < |s| ==> !IsSpecial(s[i])) ==> r == s
  {
    if s == [] then []
    else
      var head := EscapeChar(s[0]);
      var rest := Escape(s[1..]);
      assert forall i :: 0 <= i < |head + rest| ==>
               (head + rest)[i] == if i < |head| then head[i] else rest[i - |head|];
      head + rest
  }

  /**
    escapeHtml: a missing (null or undefined) or empty text gives the empty
    string; any other text comes out free of markup characters and reads back
    as itself.
   */
  function EscapeHtml(text: Option<string>): (r: string)
    ensures text.None? ==> r == ""
    ensures text.Some? ==> Unescape(r) == Some(text.value)
    ensures MarkupFree(r)
  {
    if text.None? || text.value == "" then ""
    else
      UnescapeEscape(text.value);
      Escape(text.value)
  }

  /** The entity at the start of `s`, as the character it stands for and its length. */
  function DecodeEntity(s: string): (r: Option<(char, nat)>)
    ensures r.Some? ==> 0 < r.value.1 <= |s|
  {
    if |s| >= 5 && s[..5] == "&amp;" then Some(('&', 5))
    else if |s| >= 4 && s[..4] == "&lt;" then Some(('<', 4))
    else if |s| >= 4 && s[..4] == "&gt;" then Some(('>', 4))
    else if |s| >= 6 && s[..6] == "&quot;" then Some(('"', 6))
    else if |s| >= 6 && s[..6] == "&#039;" then Some(('\'', 6))
    else None
  }

  /** The inverse reading: entities back to characters; a bare special character is malformed. */
  function Unescape(s: string): (r: Option<string>)
    decreases |s|
  {
    if s == [] then Some([])
    else if s[0] == '&' then
      match DecodeEntity(s)
      case None => None
      case Some((c, n)) =>
        match Unescape(s[n..])
        case None => None
        case Some(t) => Some([c] + t)
    else if IsSpecial(s[0]) then None
    else
      match Unescape(s[1..])
      case None => None
      case Some(t) => Some([s[0]] + t)
  }

  /** The entity a special character is replaced by reads back as that character. */
  lemma DecodeEscapedChar(c: char, rest: string)
    requires IsSpecial(c)
    ensures DecodeEntity(EscapeChar(c) + rest) == Some((c, |EscapeChar(c)|))
  {
    var e := EscapeChar(c);
    var s := e + rest;
    assert s[..|e|] == e;
    assert s[0] == '&' && s[1] == e[1] && s[2] == e[2];
  }

  /** Round trip: reading the escaped text back gives the text. */
  lemma {:induction false} UnescapeEscape(s: string)
    ensures Unescape(Escape(s)) == Some(s)
  {
    if s != [] {
      var head := EscapeChar(s[0]);
      var rest := Escape(s[1..]);
      assert Escape(s) == head + rest;
      UnescapeEscape(s[1..]);
      if IsSpecial(s[0]) {
        DecodeEscapedChar(s[0], rest);
        assert (head + rest)[|head|..] == rest;
      } else {
        assert (head + rest)[1..] == rest;
      }
      assert [s[0]] + s[1..] == s;
    }
  }

  /** Different texts never escape to the same markup. */
  lemma EscapeInjective(a: string, b: string)
    requires Escape(a) == Escape(b)
    ensures a == b
  {
    UnescapeEscape(a);
    UnescapeEscape(b);
  }

  /** Escaping the parts of a text and joining them is escaping the whole. */
  lemma {:induction false} EscapeConcat(a: string, b: string)
    ensures Escape(a + b) == Escape(a) + Escape(b)
  {
    if a == [] {
      assert a + b == b;
    } else {
      assert (a + b)[0] == a[0];
      assert (a + b)[1..] == a[1..] + b;
      EscapeConcat(a[1..], b);
    }
  }
}
