/**
 * gd-strokeorder (src/stroke_order.cpp): echoes the word back as an HTML
 * block styled with the KanjiStrokeOrders font, followed by a style sheet
 * whose font size is the one given with `--font-size`. A word longer than
 * the byte limit (`--max-len`, five three-byte characters by default)
 * prints nothing.
 */
module StrokeOrder {
  import opened Wrappers
  import opened ByteStrings
  import opened Util

  const Newline: Byte := '\n' as int

  /** `CharByteLen::THREE * 5`: five characters of three bytes each. */
  const DefaultLen: nat := 3 * 5

  /** The fields of `stroke_order_params`. */
  datatype StrokeOrderParams = StrokeOrderParams(word: Bytes, fontSize: Bytes, maxLen: nat)

  const InitialParams := StrokeOrderParams([], Ascii("10rem"), DefaultLen)

  /**
   * `stroke_order_params::assign`: `--max-len` takes the number the value
   * starts with, or the default length when it has none; `--font-size` and
   * `--word` set their fields; other keys are ignored.
   */
  function Assign(p: StrokeOrderParams, key: Bytes, value: Bytes): (r: Result<StrokeOrderParams, Failure>)
    ensures r.Ok?
    ensures key == Ascii("--max-len") ==>
      r.value.word == p.word && r.value.fontSize == p.fontSize
      && (ParseNumber(value).Some? ==> r.value.maxLen == ParseNumber(value).value)
      && (ParseNumber(value).None? ==> r.value.maxLen == DefaultLen)
    ensures key == Ascii("--font-size") ==> r.value == p.(fontSize := value)
    ensures key == Ascii("--word") ==> r.value == p.(word := value)
    ensures key != Ascii("--max-len") && key != Ascii("--font-size") && key != Ascii("--word") ==> r.value == p
  {
    if key == Ascii("--max-len") then
      Ok(p.(maxLen := match ParseNumber(value) case Some(n) => n case None => DefaultLen))
    else if key == Ascii("--font-size") then Ok(p.(fontSize := value))
    else if key == Ascii("--word") then Ok(p.(word := value))
    else Ok(p)
  }

  function Word(p: StrokeOrderParams): Bytes {
    p.word
  }

  /** "--max-len abc" falls back to fifteen bytes; "--max-len 3" allows one character. */
  lemma MaxLenFallsBack(p: StrokeOrderParams)
    ensures Assign(p, Ascii("--max-len"), Ascii("abc")).value.maxLen == 15
    ensures Assign(p, Ascii("--max-len"), Ascii("3")).value.maxLen == 3
  {
    assert !IsDigit(Ascii("abc")[0]);
    var v := Ascii("3");
    assert v == [51];
    assert v[1..] == [];
    assert DigitRun(v) == 1;
    assert v[..1] == [51] && [51][..0] == [];
  }

  // ---------------------------------------------------------------- print_css

  /** The style sheet up to its font size, line by line. */
  function CssHead(): Bytes {
    Ascii("<style>\n") + Ascii("    .kanji_stroke_order {\n") + Ascii("        font-size: ")
  }

  /** The text `print_css` replaces with the font size. */
  function Placeholder(): Bytes {
    Ascii("<FONTSIZE>")
  }

  /** The style sheet after its font size, line by line. */
  function CssTail(): Bytes {
    Ascii(";\n") + Ascii("        font-family: ") + Ascii("KanjiStrokeOrders;\n") + Ascii("    }\n") + Ascii("</style>")
  }

  /** The `css_style` template, written in the three parts around its placeholder. */
  function CssStyle(): Bytes {
    CssHead() + Placeholder() + CssTail()
  }

  /** The style sheet line for a font size. */
  function Css(fontSize: Bytes): Bytes {
    CssHead() + fontSize + CssTail() + [Newline]
  }

  /**
   * A pattern whose second byte occurs in `s` only at `c + 1` can occur in
   * `s` only at `c`.
   */
  lemma OnlyOccurrence(s: Bytes, pat: Bytes, c: nat)
    requires |pat| >= 2
    requires forall i :: 0 <= i < |s| && s[i] == pat[1] ==> i == c + 1
    ensures forall j :: OccursAt(s, pat, j) ==> j == c
  {
    forall j: nat | OccursAt(s, pat, j)
      ensures j == c
    {
      assert s[j..j + |pat|][1] == s[j + 1];
    }
  }

  /** No capital F (byte 70) in the head... */
  lemma HeadLacksCapitalF()
    ensures 70 !in CssHead()
  {
    assert 70 !in Ascii("<style>\n");
    assert 70 !in Ascii("    .kanji_stroke_order {\n");
    assert 70 !in Ascii("        font-size: ");
  }

  /** ...nor in the tail. */
  lemma TailLacksCapitalF()
    ensures 70 !in CssTail()
  {
    FontFamilyLacksCapitalF();
    assert 70 !in Ascii(";\n");
    assert 70 !in Ascii("    }\n");
    assert 70 !in Ascii("</style>");
  }

  lemma FontFamilyLacksCapitalF()
    ensures 70 !in Ascii("        font-family: ") + Ascii("KanjiStrokeOrders;\n")
  {
    assert 70 !in Ascii("        font-family: ");
    assert 70 !in Ascii("KanjiStrokeOrders;\n");
  }

  /** The template holds its placeholder once, right after the head. */
  lemma PlaceholderOccursOnce()
    ensures forall j :: OccursAt(CssStyle(), Placeholder(), j) <==> j == |CssHead()|
  {
    var s := CssStyle();
    var h, p, t := CssHead(), Placeholder(), CssTail();
    assert s[|h|..|h| + |p|] == p;
    HeadLacksCapitalF();
    TailLacksCapitalF();
    assert p == [60, 70, 79, 78, 84, 83, 73, 90, 69, 62];
    forall i | 0 <= i < |s| && s[i] == p[1]
      ensures i == |h| + 1
    {
      if |h| <= i < |h| + |p| {
        assert s[i] == p[i - |h|];
      }
    }
    OnlyOccurrence(s, p, |h|);
  }

  /**
   * Replacing the first placeholder of the template puts the font size
   * between the head and the tail, whatever the font size holds.
   */
  lemma CssReplacesPlaceholder(fontSize: Bytes)
    ensures StrReplace(CssStyle(), Placeholder(), fontSize) + [Newline] == Css(fontSize)
  {
    PlaceholderOccursOnce();
    var h, p, t := CssHead(), Placeholder(), CssTail();
    assert CssStyle() == h + p + t;
    assert forall j :: 0 <= j < |h| ==> !OccursAt(h + p + t, p, j);
    ReplaceFirstAfter(h, p, t, fontSize);
  }

  /** When the first occurrence of `pat` in `head + pat + tail` is the one after `head`, that one is replaced. */
  lemma ReplaceFirstAfter(head: Bytes, pat: Bytes, tail: Bytes, to: Bytes)
    requires forall j :: 0 <= j < |head| ==> !OccursAt(head + pat + tail, pat, j)
    ensures StrReplace(head + pat + tail, pat, to) == head + to + tail
  {
    var s := head + pat + tail;
    assert s[|head|..|head| + |pat|] == pat;
    assert OccursAt(s, pat, |head|);
    FindFromFinds(s, pat, 0);
    assert FindFrom(s, pat, 0) == Some(|head|);
    assert s[..|head|] == head;
    assert s[|head| + |pat|..] == tail;
  }

  /**
   * `print_css`: copy the template, replace the first placeholder with the
   * font size when there is one, and print the result on a line.
   */
  method PrintCss(fontSize: Bytes) returns (line: Bytes)
    ensures line == Css(fontSize)
  {
    var temp := CssStyle();
    var idx := FindFrom(temp, Placeholder(), 0);
    FindFromOccurs(temp, Placeholder(), 0);
    if idx.Some? {
      temp := temp[..idx.value] + fontSize + temp[idx.value + |Placeholder()|..];
    }
    line := temp + [Newline];
    CssReplacesPlaceholder(fontSize);
  }

  /** Different font sizes give different style sheets. */
  lemma {:induction false} CssDeterminesFontSize(a: Bytes, b: Bytes)
    requires Css(a) == Css(b)
    ensures a == b
  {
    var h := |CssHead()|;
    assert |a| == |b|;
    assert Css(a)[h..h + |a|] == a;
    assert Css(b)[h..h + |b|] == b;
  }

  // ---------------------------------------------------------------- print_with_stroke_order

  function DivOpen(): Bytes {
    Ascii("<div class=\"kanji_stroke_order\">")
  }

  function DivClose(): Bytes {
    Ascii("</div>\n")
  }

  /**
   * What `print_with_stroke_order` prints: nothing for a word longer than
   * the limit, otherwise the word in its styled block and the style sheet.
   */
  function StyledWord(p: StrokeOrderParams): (r: Bytes)
    ensures r != [] <==> |p.word| <= p.maxLen
    ensures r != [] ==> |DivOpen()| + |p.word| + |Css(p.fontSize)| <= |r|
    ensures r != [] ==> r[..|DivOpen()| + |p.word|] == DivOpen() + p.word
    ensures r != [] ==> r[|r| - |Css(p.fontSize)|..] == Css(p.fontSize)
  {
    if |p.word| <= p.maxLen then DivOpen() + p.word + DivClose() + Css(p.fontSize) else []
  }

  /** `print_with_stroke_order`: the length check, the block, then `print_css`. */
  method PrintWithStrokeOrder(p: StrokeOrderParams) returns (out: Bytes)
    ensures out == StyledWord(p)
  {
    out := [];
    if |p.word| <= p.maxLen {
      out := DivOpen() + p.word + DivClose();
      var css := PrintCss(p.fontSize);
      out := out + css;
    }
  }

  // ---------------------------------------------------------------- stroke_order

  /** What `stroke_order` shows: the help text, an error message, the styled word, or nothing when an exception escapes both `catch` clauses. */
  datatype Shown = HelpText | ErrorMessage(reason: Reason) | Page(text: Bytes) | Terminated

  /** `stroke_order`: parse the options and print, or show what went wrong. */
  function RunStrokeOrder(args: seq<Bytes>): Shown {
    match FilledArgs(args, InitialParams, Assign, Word)
    case Err(HelpRequested) => HelpText
    case Err(RuntimeError(reason)) => ErrorMessage(reason)
    case Err(OutOfRange) => Terminated
    case Ok(p) => Page(StyledWord(p))
  }

  /**
   * `gd-strokeorder --word W` prints W at 10rem when it has at most fifteen
   * bytes (five kanji), and prints nothing for a longer word.
   */
  lemma DefaultLimit(word: Bytes)
    requires word != [] && !StartsWithDash(word)
    ensures |word| <= 15 ==>
      RunStrokeOrder([Ascii("--word"), word]) == Page(DivOpen() + word + DivClose() + Css(Ascii("10rem")))
    ensures |word| > 15 ==> RunStrokeOrder([Ascii("--word"), word]) == Page([])
  {
    var args := [Ascii("--word"), word];
    assert args[0] == Ascii("--word") && args[1] == word;
    assert args[0][2] != Ascii("--help")[2];
    assert !IsHelpFlag(args[0]) && StartsWithDash(args[0]);
    assert ScanArgs(args, 2, InitialParams.(word := word), Assign) == Ok(StrokeOrderParams(word, Ascii("10rem"), 15));
  }
}
