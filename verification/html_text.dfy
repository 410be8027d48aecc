/**
 * Text written into `innerHTML`: how the browser reads the character
 * references this code produces back into displayed text, and an escaping
 * function whose output reads back as the original text.
 */
module HtmlText {
  import opened JsText

  const NoBreakSpace: char := '\U{A0}'

  /** The displayed text of markup, reading the references `&nbsp;`, `&amp;`,
      `&lt;` and `&gt;`; every other character stands for itself. Tags are
      not modelled. */
  function Decode(h: string): string
    decreases |h|
  {
    if h == [] then []
    else if "&nbsp;" <= h then [NoBreakSpace] + Decode(h[6..])
    else if "&amp;" <= h then "&" + Decode(h[5..])
    else if "&lt;" <= h then "<" + Decode(h[4..])
    else if "&gt;" <= h then ">" + Decode(h[4..])
    else [h[0]] + Decode(h[1..])
  }

  /** What markup, given as the code units of a JavaScript string, displays
      when written into an element of its own. */
  function Shown(h: seq<CodeUnit>): string {
    Decode(FromUnits(h))
  }

  /** What a piece of text displays as when written on its own: itself,
      except that a lone space, written `&nbsp;`, shows as a no-break space. */
  function Visible(piece: string): string {
    if piece == " " then [NoBreakSpace] else piece
  }

  /** One character made safe for `innerHTML`. */
  function EscapeChar(c: char): (e: string)
    ensures '<' !in e && '>' !in e
  {
    if c == '&' then "&amp;" else if c == '<' then "&lt;" else if c == '>' then "&gt;" else [c]
  }

  /** Text made safe for `innerHTML`: `&`, `<` and `>` become references, so
      the result opens and closes no tag. */
  function Escape(s: string): (h: string)
    ensures '<' !in h && '>' !in h
  {
    if s == [] then [] else EscapeChar(s[0]) + Escape(s[1..])
  }

  /** An escaped character reads back as itself, whatever follows it. */
  lemma DecodeEscapeChar(c: char, rest: string)
    ensures Decode(EscapeChar(c) + rest) == [c] + Decode(rest)
  {
    var h := EscapeChar(c) + rest;
    if c == '&' {
      assert h[..5] == "&amp;" && h[5..] == rest;
      assert h[1] == 'a';
      assert !("&nbsp;" <= h);
      assert "&amp;" <= h;
    } else if c == '<' {
      assert h[..4] == "&lt;" && h[4..] == rest;
      assert h[1] == 'l';
      assert !("&nbsp;" <= h) && !("&amp;" <= h);
      assert "&lt;" <= h;
    } else if c == '>' {
      assert h[..4] == "&gt;" && h[4..] == rest;
      assert h[1] == 'g';
      assert !("&nbsp;" <= h) && !("&amp;" <= h) && !("&lt;" <= h);
      assert "&gt;" <= h;
    } else {
      assert h[0] == c && h[1..] == rest;
    }
  }

  /** Escaped text reads back as the text itself. */
  lemma {:induction false} DecodeEscape(s: string)
    ensures Decode(Escape(s)) == s
  {
    if s != [] {
      DecodeEscape(s[1..]);
      DecodeEscapeChar(s[0], Escape(s[1..]));
      assert [s[0]] + s[1..] == s;
    }
  }

  /** A single character reads back as itself. */
  lemma DecodeChar(c: char)
    ensures Decode([c]) == [c]
  {
  }
}
