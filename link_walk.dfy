/**
 * The sentence walk shared by both segmenters: for every codepoint of the
 * sentence, in order, find its `bword`, update the headword counter and emit a
 * link. How a position's `bword` is found differs between the tools, so it is
 * a parameter here; a failure there stops the walk with that failure.
 */
module LinkWalk {
  import opened Wrappers
  import opened ByteStrings
  import opened Util
  import opened Utf8Walk
  import Headword

  /** One link of the output: its class ("gd-headword" or "gd-word"), its `bword:` target and its text. */
  datatype Link = Link(headword: bool, bword: Bytes, text: Bytes)

  /** How a tool finds the `bword` of one position. */
  type Lookup = CharView -> Result<Bytes, Failure>

  /** The counter after a position: reset to the `bword`'s length on a match, else reduced by the codepoint's. */
  function NextCounter(word: Bytes, pos: int, v: CharView, bword: Bytes): int {
    if word == bword then |bword| else pos - |v.ch|
  }

  /** The links for the positions `vs`, in order, with the headword counter after the last. */
  function Walk(bw: Lookup, word: Bytes, vs: seq<CharView>): Result<(seq<Link>, int), Failure>
  {
    if vs == [] then Ok(([], 0))
    else
      match Walk(bw, word, vs[..|vs| - 1])
      case Err(e) => Err(e)
      case Ok((links, pos)) =>
        var v := vs[|vs| - 1];
        match bw(v)
        case Err(e) => Err(e)
        case Ok(bword) =>
          var pos' := NextCounter(word, pos, v, bword);
          Ok((links + [Link(pos' > 0, bword, v.ch)], pos'))
  }

  /** The history of headword tests behind a list of links. */
  function StepsOf(word: Bytes, links: seq<Link>): (h: seq<Headword.Step>)
    ensures |h| == |links|
    ensures forall n :: 0 <= n < |links| ==> h[n] == Headword.Step(links[n].bword == word, |links[n].text|)
  {
    if links == [] then []
    else StepsOf(word, links[..|links| - 1]) + [Headword.Step(links[|links| - 1].bword == word, |links[|links| - 1].text|)]
  }

  /** One position more: the walk so far, then the link of the last position. */
  lemma WalkStep(bw: Lookup, word: Bytes, vs: seq<CharView>)
    requires vs != [] && Walk(bw, word, vs).Ok?
    ensures Walk(bw, word, vs[..|vs| - 1]).Ok? && bw(vs[|vs| - 1]).Ok?
    ensures var (links0, pos0) := Walk(bw, word, vs[..|vs| - 1]).value;
      var bword := bw(vs[|vs| - 1]).value;
      var pos := NextCounter(word, pos0, vs[|vs| - 1], bword);
      Walk(bw, word, vs).value == (links0 + [Link(pos > 0, bword, vs[|vs| - 1].ch)], pos)
  {
  }

  /**
   * Link `n` shows codepoint `n` and links to its `bword`; its class is the
   * headword counter's verdict on the positions up to it.
   */
  predicate LinkFits(bw: Lookup, word: Bytes, vs: seq<CharView>, links: seq<Link>, n: nat)
    requires n < |vs| && n < |links|
  {
    links[n].text == vs[n].ch && bw(vs[n]) == Ok(links[n].bword) &&
    links[n].headword == Headword.Highlighted(|word|, StepsOf(word, links[..n + 1]))
  }

  /** A link that fits a prefix of the positions fits the whole. */
  lemma FitsExtend(bw: Lookup, word: Bytes, vs: seq<CharView>, links: seq<Link>, n: nat)
    requires vs != [] && |links| == |vs| && n < |vs| - 1
    requires LinkFits(bw, word, vs[..|vs| - 1], links[..|links| - 1], n)
    ensures LinkFits(bw, word, vs, links, n)
  {
    assert links[..|links| - 1][..n + 1] == links[..n + 1];
  }

  /**
   * The walk yields one link per position, showing that position's codepoint
   * and linking to its `bword`; the class of each link is the headword
   * counter's verdict on the positions up to it.
   */
  lemma {:induction false} WalkLinks(bw: Lookup, word: Bytes, vs: seq<CharView>)
    requires Walk(bw, word, vs).Ok?
    ensures var (links, pos) := Walk(bw, word, vs).value;
      |links| == |vs| &&
      pos == Headword.Counter(|word|, StepsOf(word, links)) &&
      forall n :: 0 <= n < |vs| ==> LinkFits(bw, word, vs, links, n)
    decreases |vs|
  {
    if vs != [] {
      var init := vs[..|vs| - 1];
      WalkStep(bw, word, vs);
      WalkLinks(bw, word, init);
      var (links, pos) := Walk(bw, word, vs).value;
      var (links0, pos0) := Walk(bw, word, init).value;
      WalkLinksStep(bw, word, vs, init, links0, pos0, links, pos);
    }
  }

  /** The inductive step of `WalkLinks`: one position more keeps every link fitting. */
  lemma WalkLinksStep(bw: Lookup, word: Bytes, vs: seq<CharView>, init: seq<CharView>,
                      links0: seq<Link>, pos0: int, links: seq<Link>, pos: int)
    requires vs != [] && init == vs[..|vs| - 1] && bw(vs[|vs| - 1]).Ok?
    requires links == links0 + [Link(pos > 0, bw(vs[|vs| - 1]).value, vs[|vs| - 1].ch)]
    requires pos == NextCounter(word, pos0, vs[|vs| - 1], bw(vs[|vs| - 1]).value)
    requires |links0| == |vs| - 1 && pos0 == Headword.Counter(|word|, StepsOf(word, links0))
    requires forall n :: 0 <= n < |init| ==> LinkFits(bw, word, init, links0, n)
    ensures |links| == |vs| && pos == Headword.Counter(|word|, StepsOf(word, links))
    ensures forall n :: 0 <= n < |vs| ==> LinkFits(bw, word, vs, links, n)
  {
    assert links[..|links| - 1] == links0;
    var h := StepsOf(word, links);
    assert Headword.Init(h) == StepsOf(word, links0);
    assert links[..|links|] == links;
    forall n | 0 <= n < |vs| ensures LinkFits(bw, word, vs, links, n) {
      if n < |vs| - 1 {
        FitsExtend(bw, word, vs, links, n);
      }
    }
  }

  /** A walk that succeeds found a `bword` for every position. */
  lemma {:induction false} WalkNeedsAll(bw: Lookup, word: Bytes, vs: seq<CharView>)
    requires Walk(bw, word, vs).Ok?
    ensures forall n :: 0 <= n < |vs| ==> bw(vs[n]).Ok?
    decreases |vs|
  {
    if vs != [] {
      var init := vs[..|vs| - 1];
      WalkNeedsAll(bw, word, init);
      assert forall n :: 0 <= n < |init| ==> init[n] == vs[n];
    }
  }

  /** The walk succeeds when every position has a `bword`. */
  lemma {:induction false} WalkSucceeds(bw: Lookup, word: Bytes, vs: seq<CharView>)
    requires forall n :: 0 <= n < |vs| ==> bw(vs[n]).Ok?
    ensures Walk(bw, word, vs).Ok?
    decreases |vs|
  {
    if vs != [] {
      var init := vs[..|vs| - 1];
      assert forall n :: 0 <= n < |init| ==> init[n] == vs[n];
      WalkSucceeds(bw, word, init);
    }
  }

  /** A failing walk fails with the failure of the first position without a `bword`. */
  lemma {:induction false} WalkFailsAtFirst(bw: Lookup, word: Bytes, vs: seq<CharView>, n: nat)
    requires n < |vs| && bw(vs[n]).Err?
    requires forall m :: 0 <= m < n ==> bw(vs[m]).Ok?
    ensures Walk(bw, word, vs) == Err(bw(vs[n]).error)
    decreases |vs|
  {
    var init := vs[..|vs| - 1];
    assert forall m :: 0 <= m < |init| ==> init[m] == vs[m];
    if n < |vs| - 1 {
      WalkFailsAtFirst(bw, word, init, n);
    } else {
      WalkSucceeds(bw, word, init);
    }
  }

  /** A walk that got through the first `n` positions and fails at the next fails with that failure. */
  lemma WalkStopsAt(bw: Lookup, word: Bytes, vs: seq<CharView>, n: nat)
    requires n < |vs| && Walk(bw, word, vs[..n]).Ok? && bw(vs[n]).Err?
    ensures Walk(bw, word, vs) == Err(bw(vs[n]).error)
  {
    WalkNeedsAll(bw, word, vs[..n]);
    assert forall m :: 0 <= m < n ==> vs[..n][m] == vs[m];
    WalkFailsAtFirst(bw, word, vs, n);
  }
}
