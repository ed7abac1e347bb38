/**
 * The headword highlight of the segmenters. Each sentence position has a
 * displayed codepoint and a looked-up `bword`; a byte counter decides which
 * positions belong to the selected word. The history of positions seen so far
 * determines the counter, so everything here is a function of that history.
 */
module Headword {
  import opened Wrappers

  /** One sentence position: whether its `bword` equals the word, and the byte length shown. */
  datatype Step = Step(matched: bool, len: nat)

  function Init(h: seq<Step>): seq<Step>
    requires h != []
  {
    h[..|h| - 1]
  }

  function Last(h: seq<Step>): Step
    requires h != []
  {
    h[|h| - 1]
  }

  function TotalLen(h: seq<Step>): nat
  {
    if h == [] then 0 else TotalLen(Init(h)) + Last(h).len
  }

  /**
   * The bytes from the start of the last matched position to the end of the
   * history, or None when no position matched yet.
   */
  function SpanFromMatch(h: seq<Step>): Option<nat>
  {
    if h == [] then None
    else if Last(h).matched then Some(Last(h).len)
    else match SpanFromMatch(Init(h))
      case None => None
      case Some(b) => Some(b + Last(h).len)
  }

  /** The bytes after the end of the last matched position up to the end of the history. */
  function SpanAfterMatch(h: seq<Step>): Option<nat>
  {
    if h == [] then None
    else if Last(h).matched then Some(0)
    else match SpanAfterMatch(Init(h))
      case None => None
      case Some(b) => Some(b + Last(h).len)
  }

  /**
   * The intended highlight of the last position of `h`: it starts less than
   * `w` bytes after the start of the last position whose `bword` is the word,
   * that is, it lies inside the headword's span.
   */
  predicate Intended(w: nat, h: seq<Step>)
    requires h != []
  {
    if Last(h).matched then w > 0
    else SpanFromMatch(Init(h)).Some? && SpanFromMatch(Init(h)).value < w
  }

  // ------------------------------------------------------ the counter as written

  /**
   * `pos_in_gd_word` after the last position of `h`: set to the headword's
   * length on a match, otherwise reduced by the codepoint's byte length; it
   * starts at 0.
   */
  function Counter(w: nat, h: seq<Step>): int
  {
    if h == [] then 0
    else if Last(h).matched then w
    else Counter(w, Init(h)) - Last(h).len
  }

  /** The class of the last position of `h`: "gd-headword" iff the counter is positive. */
  predicate Highlighted(w: nat, h: seq<Step>) {
    Counter(w, h) > 0
  }

  /**
   * What the counter as written measures: `w` minus the bytes after the end
   * of the matched position, so a position is highlighted iff it ends less
   * than `w` bytes after the matched position ends.
   */
  lemma {:induction false} CounterMeasuresFromMatchEnd(w: nat, h: seq<Step>)
    ensures SpanAfterMatch(h).None? ==> Counter(w, h) == -(TotalLen(h) as int)
    ensures SpanAfterMatch(h).Some? ==> Counter(w, h) == w - SpanAfterMatch(h).value
    ensures Highlighted(w, h) <==> SpanAfterMatch(h).Some? && SpanAfterMatch(h).value < w
    decreases |h|
  {
    if h != [] {
      CounterMeasuresFromMatchEnd(w, Init(h));
    }
  }

  /**
   * The counter as written highlights the codepoint after a headword when it
   * is shorter than the headword's last codepoint: with the word "あ"
   * (3 bytes) found at the first position of "あa", the ASCII "a" that
   * follows is highlighted although it is outside the headword.
   */
  lemma CounterHighlightsPastHeadword()
    ensures Highlighted(3, [Step(true, 3), Step(false, 1)])
    ensures !Intended(3, [Step(true, 3), Step(false, 1)])
  {
    var h := [Step(true, 3), Step(false, 1)];
    assert Init(h) == [Step(true, 3)];
    assert Counter(3, Init(h)) == 3;
    assert SpanFromMatch(Init(h)) == Some(3);
  }

  // ------------------------------------------------- the legacy `j` counter rule

  /**
   * `j` after the last position of `h` in the stand-alone gd-marisa: set to
   * the headword's length on a match, and reduced by the byte length only at
   * a position that was shown in bold; it starts at 0.
   */
  function LegacyCounter(w: nat, h: seq<Step>): int
  {
    if h == [] then 0
    else
      var j := if Last(h).matched then w else LegacyCounter(w, Init(h));
      if j > 0 then j - Last(h).len else j
  }

  /** The last position of `h` is shown in bold: `j > 0` after the match test. */
  predicate Bold(w: nat, h: seq<Step>)
    requires h != []
  {
    (if Last(h).matched then w else LegacyCounter(w, Init(h))) > 0
  }

  lemma {:induction false} LegacyCounterTracksSpan(w: nat, h: seq<Step>)
    ensures SpanFromMatch(h).None? ==> LegacyCounter(w, h) == 0
    ensures SpanFromMatch(h).Some? && LegacyCounter(w, h) > 0 ==>
      LegacyCounter(w, h) == w - SpanFromMatch(h).value
    ensures SpanFromMatch(h).Some? && LegacyCounter(w, h) <= 0 ==> w <= SpanFromMatch(h).value
    decreases |h|
  {
    if h != [] {
      LegacyCounterTracksSpan(w, Init(h));
    }
  }

  /** The legacy rule highlights exactly the positions inside the headword's span. */
  lemma LegacyRuleIsIntended(w: nat, h: seq<Step>)
    requires h != []
    ensures Bold(w, h) <==> Intended(w, h)
  {
    LegacyCounterTracksSpan(w, Init(h));
  }

  /** On the positions of `h`, both rules agree when every codepoint has the same byte length. */
  lemma {:induction false} RulesAgreeOnUniformWidth(w: nat, h: seq<Step>, len: nat)
    requires h != []
    requires forall n :: 0 <= n < |h| ==> h[n].len == len
    ensures Highlighted(w, h) <==> Intended(w, h)
  {
    CounterMeasuresFromMatchEnd(w, h);
    if !Last(h).matched {
      SpansDifferByOneWidth(Init(h), len);
    }
  }

  lemma {:induction false} SpansDifferByOneWidth(h: seq<Step>, len: nat)
    requires forall n :: 0 <= n < |h| ==> h[n].len == len
    ensures SpanFromMatch(h).Some? <==> SpanAfterMatch(h).Some?
    ensures SpanFromMatch(h).Some? ==> SpanFromMatch(h).value == SpanAfterMatch(h).value + len
    decreases |h|
  {
    if h != [] {
      SpansDifferByOneWidth(Init(h), len);
    }
  }
}
