/**
 * The per-entry title rule of `create_combined_feed`: a title that contains
 * the `<sub` marker is kept as markup and declared `type="html"`; any other
 * non-empty title has its angle brackets escaped as character references.
 */
module TitleEscape {
  import opened Options

  /** The marker whose presence makes a title count as HTML markup. */
  const SubMarker: string := "<sub"

  /** `pat` occurs in `s` starting at index `i`. */
  predicate OccursAt(s: string, pat: string, i: nat) {
    i + |pat| <= |s| && s[i..i + |pat|] == pat
  }

  /** Python's substring test `pat in s`. */
  predicate Contains(s: string, pat: string) {
    exists i: nat :: i <= |s| && OccursAt(s, pat, i)
  }

  /**
   * `s.replace(c, rep)` for a one-character pattern: every occurrence of `c`
   * becomes `rep`, everything else is copied.
   */
  function ReplaceChar(s: string, c: char, rep: string): (r: string)
    ensures c !in rep ==> c !in r
    ensures forall d :: d in r ==> d in rep || (d in s && d != c)
    ensures c !in s ==> r == s
  {
    if s == [] then []
    else (if s[0] == c then rep else [s[0]]) + ReplaceChar(s[1..], c, rep)
  }

  /** Reference definition of the escape, one character at a time. */
  function EscapeChar(c: char): string {
    if c == '<' then "&lt;" else if c == '>' then "&gt;" else [c]
  }

  function EscapeEach(s: string): string {
    if s == [] then [] else EscapeChar(s[0]) + EscapeEach(s[1..])
  }

  /**
   * `text.replace("<", "&lt;").replace(">", "&gt;")`: the result has no angle
   * brackets left and agrees with the character-by-character escape.
   */
  function EscapeAngles(s: string): (r: string)
    ensures '<' !in r && '>' !in r
    ensures r == EscapeEach(s)
  {
    EscapeAnglesPerChar(s);
    ReplaceChar(ReplaceChar(s, '<', "&lt;"), '>', "&gt;")
  }

  lemma {:induction false} ReplaceCharAppend(a: string, b: string, c: char, rep: string)
    ensures ReplaceChar(a + b, c, rep) == ReplaceChar(a, c, rep) + ReplaceChar(b, c, rep)
    decreases |a|
  {
    if a == [] {
      assert a + b == b;
    } else {
      assert (a + b)[0] == a[0];
      assert (a + b)[1..] == a[1..] + b;
      ReplaceCharAppend(a[1..], b, c, rep);
    }
  }

  /** The two chained replacements are the same as escaping each character. */
  lemma {:induction false} EscapeAnglesPerChar(s: string)
    ensures ReplaceChar(ReplaceChar(s, '<', "&lt;"), '>', "&gt;") == EscapeEach(s)
    decreases |s|
  {
    if s != [] {
      var head := if s[0] == '<' then "&lt;" else [s[0]];
      var tail := ReplaceChar(s[1..], '<', "&lt;");
      assert ReplaceChar(s, '<', "&lt;") == head + tail;
      ReplaceCharAppend(head, tail, '>', "&gt;");
      assert ReplaceChar(head, '>', "&gt;") == EscapeChar(s[0]) by {
        if s[0] == '<' {
          assert '>' !in head;
        } else {
          assert head == [s[0]];
          assert ReplaceChar(head, '>', "&gt;")
              == (if s[0] == '>' then "&gt;" else [s[0]]) + ReplaceChar([], '>', "&gt;");
        }
      }
      EscapeAnglesPerChar(s[1..]);
    }
  }

  /** Escaping distributes over concatenation. */
  lemma {:induction false} EscapeEachAppend(a: string, b: string)
    ensures EscapeEach(a + b) == EscapeEach(a) + EscapeEach(b)
    decreases |a|
  {
    if a == [] {
      assert a + b == b;
    } else {
      assert (a + b)[0] == a[0];
      assert (a + b)[1..] == a[1..] + b;
      EscapeEachAppend(a[1..], b);
    }
  }

  /** Text without angle brackets is left exactly as it was. */
  lemma EscapeKeepsPlainText(s: string)
    requires '<' !in s && '>' !in s
    ensures EscapeAngles(s) == s
  {
  }

  /** Number of angle brackets in `s`. */
  function AngleCount(s: string): nat {
    if s == [] then 0 else (if s[0] == '<' || s[0] == '>' then 1 else 0) + AngleCount(s[1..])
  }

  /** Each bracket grows by three characters (`<` to `&lt;`); nothing else changes length. */
  lemma {:induction false} EscapeLength(s: string)
    ensures |EscapeAngles(s)| == |s| + 3 * AngleCount(s)
    decreases |s|
  {
    if s != [] {
      EscapeLength(s[1..]);
      assert EscapeAngles(s) == EscapeChar(s[0]) + EscapeAngles(s[1..]);
    }
  }

  /** A string without `<` cannot contain the `<sub` marker. */
  lemma NoMarkerWithoutLt(s: string)
    requires '<' !in s
    ensures !Contains(s, SubMarker)
  {
    forall i: nat | i <= |s|
      ensures !OccursAt(s, SubMarker, i)
    {
      if i + |SubMarker| <= |s| {
        assert s[i] in s;
        assert s[i..i + |SubMarker|][0] != SubMarker[0];
      }
    }
  }

  /** The Atom `<title>` element of an entry: its text and its `type` attribute. */
  datatype Title = Title(text: string, typeAttr: Option<string>)

  /**
   * The title step of the entry loop. An empty title is untouched; one with
   * the `<sub` marker keeps its text and is declared HTML; any other has its
   * brackets escaped and keeps its attribute. Either way the processed title
   * is declared HTML or holds no bare angle bracket.
   */
  function MarkOrEscape(t: Title): (r: Title)
    ensures t.text == "" ==> r == t
    ensures t.text != "" && Contains(t.text, SubMarker) ==> r == Title(t.text, Some("html"))
    ensures t.text != "" && !Contains(t.text, SubMarker) ==>
              r.typeAttr == t.typeAttr && r.text == EscapeEach(t.text)
    ensures r.typeAttr == Some("html") || ('<' !in r.text && '>' !in r.text)
  {
    if t.text == "" then t
    else if Contains(t.text, SubMarker) then t.(typeAttr := Some("html"))
    else t.(text := EscapeAngles(t.text))
  }

  /** Processing a title twice gives the same element as processing it once. */
  lemma MarkOrEscapeIdempotent(t: Title)
    ensures MarkOrEscape(MarkOrEscape(t)) == MarkOrEscape(t)
  {
    var r := MarkOrEscape(t);
    if t.text != "" && !Contains(t.text, SubMarker) {
      NoMarkerWithoutLt(r.text);
      EscapeKeepsPlainText(r.text);
    }
  }
}
