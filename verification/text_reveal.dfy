/**
 * The character-by-character text reveal: the element's text is rebuilt as
 * one span per piece of `text.split('')`, a space written as `&nbsp;` so
 * that it keeps its width inside its span. The pieces of `split('')` are
 * UTF-16 code units, so a character outside the Basic Multilingual Plane is
 * cut into two spans that each hold a lone surrogate.
 */
module TextReveal {
  import opened JsText
  import opened HtmlText

  /** The text the spans display, concatenated. */
  function ShownText(spans: seq<seq<CodeUnit>>): string {
    if spans == [] then "" else Shown(spans[0]) + ShownText(spans[1..])
  }

  /** What the reveal should display: the text, each space as a no-break space. */
  function DisplayedText(text: string): (r: string)
    ensures |r| == |text|
  {
    if text == [] then "" else Visible([text[0]]) + DisplayedText(text[1..])
  }

  // ---------------------------------------------------------------------
  // prepareTextReveal as written: one span per code unit

  /** What one code unit displays as in its own span: a surrogate, cut off
      from its partner, as U+FFFD; a space as a no-break space; any other
      unit as its character. */
  function UnitShown(u: CodeUnit): char {
    if IsSurrogate(u) then Replacement else if u == 32 then NoBreakSpace else u as char
  }

  /** The markup `&nbsp;` displays as a no-break space. */
  lemma NbspShown()
    ensures Shown(Units("&nbsp;")) == [NoBreakSpace]
  {
    FromUnitsUnits("&nbsp;");
    assert "&nbsp;" <= "&nbsp;" && "&nbsp;"[6..] == [];
  }

  /** A code unit other than a space, alone in its span, displays as
      `UnitShown` says. */
  lemma SingleUnitShown(u: CodeUnit)
    requires u != 32
    ensures Shown([u]) == [UnitShown(u)]
  {
    if IsSurrogate(u) {
      LoneSurrogate(u);
      DecodeChar(Replacement);
    } else {
      assert FromUnits([u]) == [u as char];
      DecodeChar(u as char);
    }
  }

  /** The content of the span for one code unit: `&nbsp;` for a space, the
      unit itself otherwise; it displays as one character. */
  function UnitMarkup(u: CodeUnit): (h: seq<CodeUnit>)
    ensures u != 32 ==> h == [u]
    ensures 32 !in h
    ensures Shown(h) == [UnitShown(u)]
  {
    if u == 32 then
      NbspShown();
      UnitsWithout("&nbsp;", ' ');
      Units("&nbsp;")
    else
      SingleUnitShown(u);
      [u]
  }

  /** The spans for a sequence of code units, one per unit. */
  function RevealUnits(u: seq<CodeUnit>): (spans: seq<seq<CodeUnit>>)
    ensures |spans| == |u|
    ensures forall i | 0 <= i < |u| :: spans[i] == UnitMarkup(u[i])
  {
    seq(|u|, i requires 0 <= i < |u| => UnitMarkup(u[i]))
  }

  /** `prepareTextReveal`: one span per code unit of the text, in order, none
      holding a raw space; each displays exactly one character. */
  function PrepareTextReveal(text: string): (spans: seq<seq<CodeUnit>>)
    ensures |spans| == Length(text)
    ensures forall i | 0 <= i < |spans| :: 32 !in spans[i] && |Shown(spans[i])| == 1
  {
    LengthUnits(text);
    RevealUnits(Units(text))
  }

  lemma {:induction false} ShownTextAppend(a: seq<seq<CodeUnit>>, b: seq<seq<CodeUnit>>)
    ensures ShownText(a + b) == ShownText(a) + ShownText(b)
  {
    if a == [] {
      assert a + b == b;
    } else {
      var ab := a + b;
      assert ab[0] == a[0] && ab[1..] == a[1..] + b;
      ShownTextAppend(a[1..], b);
      calc {
        ShownText(ab);
        Shown(a[0]) + ShownText(a[1..] + b);
        Shown(a[0]) + (ShownText(a[1..]) + ShownText(b));
        (Shown(a[0]) + ShownText(a[1..])) + ShownText(b);
      }
    }
  }

  lemma {:induction false} ShownTextLength(spans: seq<seq<CodeUnit>>)
    requires forall i | 0 <= i < |spans| :: |Shown(spans[i])| == 1
    ensures |ShownText(spans)| == |spans|
  {
    if spans != [] {
      ShownTextLength(spans[1..]);
    }
  }

  lemma RevealUnitsAppend(a: seq<CodeUnit>, b: seq<CodeUnit>)
    ensures RevealUnits(a + b) == RevealUnits(a) + RevealUnits(b)
  {
    assert forall i | 0 <= i < |b| :: (a + b)[|a| + i] == b[i];
  }

  lemma {:induction false} RevealBmp(text: string)
    requires forall i | 0 <= i < |text| :: InBmp(text[i])
    ensures ShownText(PrepareTextReveal(text)) == DisplayedText(text)
  {
    if text != [] {
      var c, rest := text[0], text[1..];
      RevealBmp(rest);
      var u: CodeUnit := c as int;
      assert Units(text) == [u] + Units(rest);
      RevealUnitsAppend([u], Units(rest));
      var head, tail := RevealUnits([u]), RevealUnits(Units(rest));
      ShownTextAppend(head, tail);
      assert ShownText(head) == Shown(head[0]) + ShownText([]) by {
        assert head[1..] == [];
      }
      assert Shown(head[0]) == Visible([c]);
    }
  }

  /** The spans display the text, spaces as no-break spaces, exactly when
      every character of the text lies in the Basic Multilingual Plane. */
  lemma RevealShowsText(text: string)
    ensures ShownText(PrepareTextReveal(text)) == DisplayedText(text) <==>
            forall i | 0 <= i < |text| :: InBmp(text[i])
  {
    LengthCountsCharacters(text);
    ShownTextLength(PrepareTextReveal(text));
    if forall i | 0 <= i < |text| :: InBmp(text[i]) {
      RevealBmp(text);
    }
  }

  /** A character outside the Basic Multilingual Plane, such as an emoji, is
      cut into two spans that each display U+FFFD. */
  lemma RevealSplitsAstral(c: char)
    requires !InBmp(c)
    ensures var spans := PrepareTextReveal([c]);
            |spans| == 2 && Shown(spans[0]) == Shown(spans[1]) == [Replacement]
  {
    assert Units([c]) == Utf16(c);
  }

  // ---------------------------------------------------------------------
  // The reveal with one span per character, as `Array.from(text)` splits

  /** The content of the span for one character: `&nbsp;` for a space. */
  function CharMarkup(c: char): (h: string)
    ensures h == "&nbsp;" <==> c == ' '
    ensures c != ' ' ==> h == [c]
  {
    if c == ' ' then "&nbsp;" else [c]
  }

  /** The span for one character; it displays the character, a space as a
      no-break space. */
  function CharSpan(c: char): (h: seq<CodeUnit>)
    ensures 32 !in h
    ensures Shown(h) == Visible([c])
  {
    UnitsWithout(CharMarkup(c), ' ');
    FromUnitsUnits(CharMarkup(c));
    assert Decode(CharMarkup(c)) == Visible([c]) by {
      if c != ' ' {
        DecodeChar(c);
      } else {
        assert "&nbsp;" <= "&nbsp;" && "&nbsp;"[6..] == [];
      }
    }
    Units(CharMarkup(c))
  }

  /** The reveal with one span per character, in order; each span displays
      its character, a space as a no-break space. */
  function PrepareTextRevealByCharacter(text: string): (spans: seq<seq<CodeUnit>>)
    ensures |spans| == |text|
    ensures forall i | 0 <= i < |spans| :: 32 !in spans[i] && Shown(spans[i]) == Visible([text[i]])
  {
    seq(|text|, i requires 0 <= i < |text| => CharSpan(text[i]))
  }

  /** The spans of the per-character reveal display the whole text, spaces as
      no-break spaces, whatever characters it holds. */
  lemma {:induction false} RevealByCharacterShowsText(text: string)
    ensures ShownText(PrepareTextRevealByCharacter(text)) == DisplayedText(text)
  {
    if text != [] {
      RevealByCharacterShowsText(text[1..]);
      assert PrepareTextRevealByCharacter(text)[1..] == PrepareTextRevealByCharacter(text[1..]);
    }
  }
}
