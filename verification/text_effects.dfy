/**
 * Text effects: splitting an element's text into animated pieces, and the
 * typewriter that writes a text back one code unit per step.
 */
module TextEffects {
  import opened Wrappers
  import opened JsText
  import opened HtmlText

  // ---------------------------------------------------------------------
  // splitText

  /** A generated span: its class, its `animation-delay` and its inner
      markup, as the UTF-16 code units of a JavaScript string. */
  datatype SplitSpan = SplitSpan(cls: string, delayMs: nat, html: seq<CodeUnit>)

  /** The split granularity: the `data-split` attribute, `chars` when it is missing or empty. */
  function SplitType(attr: Option<string>): (t: string)
    ensures t != ""
    ensures attr.Some? && attr.value != "" ==> t == attr.value
    ensures attr.None? || attr.value == "" ==> t == "chars"
  {
    if attr.None? || attr.value == "" then "chars" else attr.value
  }

  /** The separator a split type cuts at: a space for `words`, a newline for
      `lines`, and nothing (one piece per code unit) for any other type. */
  function Separator(splitType: string): seq<CodeUnit> {
    if splitType == "words" then [32] else if splitType == "lines" then [10] else []
  }

  /** The pieces of the text: `split(' ')`, `split('\n')` or `split('')`,
      all over the text's code units. */
  function Pieces(text: string, splitType: string): seq<seq<CodeUnit>> {
    if splitType == "words" then Split<CodeUnit>(Units(text), 32)
    else if splitType == "lines" then Split<CodeUnit>(Units(text), 10)
    else Chars(text)
  }

  /** Joining the pieces with their separator gives back the text. */
  lemma PiecesJoin(text: string, splitType: string)
    ensures Join(Pieces(text, splitType), Separator(splitType)) == Units(text)
  {
    if splitType == "words" {
      JoinSplit<CodeUnit>(Units(text), 32);
    } else if splitType == "lines" {
      JoinSplit<CodeUnit>(Units(text), 10);
    } else {
      JoinChars(text);
    }
  }

  /** The markup of one piece: a piece that is exactly one space becomes
      `&nbsp;`; any other piece is written as it is, without escaping. */
  function PieceMarkup(piece: seq<CodeUnit>): (h: seq<CodeUnit>)
    ensures piece == [32] ==> h == Units("&nbsp;")
    ensures piece != [32] ==> h == piece
  {
    if piece == [32] then Units("&nbsp;") else piece
  }

  /** `splitText`: one span per piece, in order; piece `i` waits `50 * i`
      milliseconds and carries the class `split-<type>`. */
  function SplitText(text: string, attr: Option<string>): (spans: seq<SplitSpan>)
    ensures var pieces := Pieces(text, SplitType(attr));
            && |spans| == |pieces|
            && forall i | 0 <= i < |spans| ::
                 && spans[i].cls == "split-" + SplitType(attr)
                 && spans[i].delayMs == 50 * i
                 && spans[i].html == PieceMarkup(pieces[i])
  {
    var splitType := SplitType(attr);
    var pieces := Pieces(text, splitType);
    seq(|pieces|, i requires 0 <= i < |pieces| =>
      SplitSpan("split-" + splitType, 50 * i, PieceMarkup(pieces[i])))
  }

  /** Word pieces never contain a space, so splitting into words writes every
      piece verbatim, and the pieces joined by spaces are the text. */
  lemma WordsVerbatim(text: string)
    ensures var spans := SplitText(text, Some("words"));
            && (forall i | 0 <= i < |spans| :: 32 !in spans[i].html)
            && Join(seq(|spans|, i requires 0 <= i < |spans| => spans[i].html), [32]) == Units(text)
  {
    var spans := SplitText(text, Some("words"));
    var pieces := Split<CodeUnit>(Units(text), 32);
    forall i | 0 <= i < |spans|
      ensures spans[i].html == pieces[i]
    {
      assert 32 !in pieces[i];
    }
    assert seq(|spans|, i requires 0 <= i < |spans| => spans[i].html) == pieces;
    JoinSplit<CodeUnit>(Units(text), 32);
  }

  /** A line that consists of the reference `&amp;` is written unescaped and
      so displays as `&`: the split changes the visible text. */
  lemma SplitTextRewritesReferences()
    ensures var spans := SplitText("&amp;", Some("lines"));
            |spans| == 1 && Shown(spans[0].html) == "&"
  {
    var u := Units("&amp;");
    UnitsWithout("&amp;", '\n');
    SplitNoSeparator<CodeUnit>(u, 10);
    FromUnitsUnits("&amp;");
    var h := "&amp;";
    assert !("&nbsp;" <= h) && "&amp;" <= h && h[5..] == [];
  }

  /** A character outside the Basic Multilingual Plane, such as an emoji, is
      cut by the `chars` split into two spans that each display U+FFFD. */
  lemma SplitTextSplitsAstral(c: char)
    requires !InBmp(c)
    ensures var spans := SplitText([c], None);
            |spans| == 2 && Shown(spans[0].html) == Shown(spans[1].html) == [Replacement]
  {
    var u := Units([c]);
    assert [c][1..] == [] && Units([]) == [];
    assert u == Utf16(c) + [];
    LoneSurrogate(u[0]);
    LoneSurrogate(u[1]);
    DecodeChar(Replacement);
  }

  // ---------------------------------------------------------------------
  // splitText with one piece per character and escaped markup

  /** The pieces cut at characters: by `split(' ')` and `split('\n')` for
      words and lines, and one piece per character, as `Array.from(text)`
      gives, for chars. */
  function CharacterPieces(text: string, splitType: string): seq<string> {
    if splitType == "words" then Split(text, ' ')
    else if splitType == "lines" then Split(text, '\n')
    else seq(|text|, i requires 0 <= i < |text| => [text[i]])
  }

  /** Cutting at characters changes only the `chars` split: for words and
      lines the pieces have the code units of the pieces `splitText` makes,
      and for chars there is one piece per character. */
  lemma CharacterPiecesAgree(text: string, splitType: string)
    ensures splitType in {"words", "lines"} ==>
              UnitsOfEach(CharacterPieces(text, splitType)) == Pieces(text, splitType)
    ensures splitType !in {"words", "lines"} ==>
              |CharacterPieces(text, splitType)| == |text| &&
              Join(CharacterPieces(text, splitType), "") == text
  {
    if splitType == "words" {
      SplitUnits(text, ' ');
    } else if splitType == "lines" {
      SplitUnits(text, '\n');
    } else {
      JoinSingletons(text);
    }
  }

  /** The markup of one piece with its text escaped. */
  function SafePieceMarkup(piece: string): (h: string)
    ensures Decode(h) == Visible(piece)
  {
    if piece == " " then "&nbsp;" else DecodeEscape(piece); Escape(piece)
  }

  /** `splitText` cutting at characters and escaping each piece: every span
      displays its piece. */
  function SplitTextEscaped(text: string, attr: Option<string>): (spans: seq<SplitSpan>)
    ensures var pieces := CharacterPieces(text, SplitType(attr));
            && |spans| == |pieces|
            && forall i | 0 <= i < |spans| ::
                 && spans[i].cls == "split-" + SplitType(attr)
                 && spans[i].delayMs == 50 * i
                 && Shown(spans[i].html) == Visible(pieces[i])
  {
    var splitType := SplitType(attr);
    var pieces := CharacterPieces(text, splitType);
    seq(|pieces|, i requires 0 <= i < |pieces| =>
      SplitSpan("split-" + splitType, 50 * i, SafeSpanMarkup(pieces[i])))
  }

  /** The escaped markup of a piece, as code units; it displays as the piece. */
  function SafeSpanMarkup(piece: string): (h: seq<CodeUnit>)
    ensures Shown(h) == Visible(piece)
  {
    FromUnitsUnits(SafePieceMarkup(piece));
    Units(SafePieceMarkup(piece))
  }

  // ---------------------------------------------------------------------
  // typeText

  /** A typewriter element: the text to type and its code units, the
      element's current content, the next index, and whether the cursor
      blink has started. */
  class Typewriter {
    const text: string
    const units: seq<CodeUnit>
    const speedMs: int
    var content: seq<CodeUnit>
    var index: nat
    var blinking: bool

    /** What has been typed is always the first `index` code units. */
    ghost predicate Valid()
      reads this
    {
      && units == Units(text)
      && index <= |units| && content == units[..index]
      && (blinking ==> index == |units|)
    }

    /** `setupTypewriter`: remember the text, read `data-speed` (100 by
        default), and empty the element. */
    constructor (original: string, speedAttr: Option<string>)
      ensures Valid() && text == original && content == [] && index == 0 && !blinking
      ensures |units| == Length(original)
      ensures speedMs == IntOr(speedAttr, 100)
    {
      text := original;
      units := Units(original);
      speedMs := IntOr(speedAttr, 100);
      content := [];
      index := 0;
      blinking := false;
      LengthUnits(original);
    }

    /** One `typeChar` step: append `text.charAt(index)`, the next code
        unit, or, when `index` has reached `text.length`, start the cursor
        blink (after which no step follows). */
    method TypeChar()
      requires Valid() && !blinking
      modifies this
      ensures Valid()
      ensures old(index) < |units| ==> index == old(index) + 1 && content == old(content) + [units[old(index)]] && !blinking
      ensures old(index) == |units| ==> index == old(index) && content == old(content) && blinking
    {
      if index < |units| {
        content := content + [units[index]];
        index := index + 1;
        assert units[..index] == units[..index - 1] + [units[index - 1]];
      } else {
        blinking := true;
      }
    }

    /** `typeText`: run the steps until the blink starts. At the end the
        element holds the code units of the whole text and so displays it. */
    method TypeText()
      requires Valid() && index == 0 && !blinking
      modifies this
      ensures Valid() && content == Units(text) && blinking
      ensures FromUnits(content) == text
    {
      while !blinking
        invariant Valid()
        decreases |units| - index + (if blinking then 0 else 1)
      {
        TypeChar();
      }
      assert units[..|units|] == units;
      FromUnitsUnits(text);
    }
  }
}
