/**
 * gd-mecab (src/mecab_split.cpp): the sentence goes through the MeCab tagger,
 * which writes one link per node, and every `>word<` of that output, the text
 * of a node equal to the word, is wrapped in `<b>`. The tagger is a foreign
 * library and is a parameter here; what is modelled is `replace_all`, the
 * params struct and the normalisation and wrapping around the tagger call.
 */
module MecabSplit {
  import opened Wrappers
  import opened ByteStrings
  import opened Util

  // ---------------------------------------------------------------- replace_all

  /**
   * Every occurrence of `from` in `s[pos..]`, taken left to right without
   * overlap, replaced by `to`. Only bytes of `s` are ever searched: the text
   * put in is never looked at again.
   */
  function ReplaceFrom(s: Bytes, from: Bytes, to: Bytes, pos: nat): Bytes
    requires |from| > 0 && pos <= |s|
    decreases |s| - pos
  {
    FindFromOccurs(s, from, pos);
    match FindFrom(s, from, pos)
    case None => s[pos..]
    case Some(i) => s[pos..i] + to + ReplaceFrom(s, from, to, i + |from|)
  }

  /** What `replace_all(s, from, to)` returns. */
  function ReplaceEvery(s: Bytes, from: Bytes, to: Bytes): Bytes
    requires |from| > 0
  {
    ReplaceFrom(s, from, to, 0)
  }

  /** The number of occurrences `ReplaceFrom` replaces. */
  function OccurrencesFrom(s: Bytes, from: Bytes, pos: nat): nat
    requires |from| > 0 && pos <= |s|
    decreases |s| - pos
  {
    FindFromOccurs(s, from, pos);
    match FindFrom(s, from, pos)
    case None => 0
    case Some(i) => 1 + OccurrencesFrom(s, from, i + |from|)
  }

  /** A position relative to where the search started. */
  function Relative(r: Option<nat>, base: nat): Option<int> {
    match r
    case None => None
    case Some(i) => Some(i - base)
  }

  /** Two strings with the same bytes from `dx` and from `dy` on give the same search results, relative to the start. */
  lemma {:induction false} FindFromSameTail(x: Bytes, y: Bytes, pat: Bytes, dx: nat, dy: nat)
    requires dx <= |x| && dy <= |y| && x[dx..] == y[dy..]
    ensures Relative(FindFrom(x, pat, dx), dx) == Relative(FindFrom(y, pat, dy), dy)
    decreases |x| - dx
  {
    if dx + |pat| <= |x| {
      assert x[dx..dx + |pat|] == x[dx..][..|pat|];
      assert y[dy..dy + |pat|] == y[dy..][..|pat|];
      if x[dx..dx + |pat|] != pat {
        assert x[dx + 1..] == x[dx..][1..];
        assert y[dy + 1..] == y[dy..][1..];
        FindFromSameTail(x, y, pat, dx + 1, dy + 1);
      }
    }
  }

  /**
   * The state of the loop of `replace_all`: `str` is `done`, what `s[..pos]`
   * became, followed by the part `s[pos..]` not searched yet; the search
   * resumes at the end of `done`, and what the rest becomes completes the result.
   */
  ghost predicate LoopState(s: Bytes, from: Bytes, to: Bytes, str: Bytes, startPos: nat, found: Option<nat>,
                            done: Bytes, pos: nat)
    requires |from| > 0
  {
    pos <= |s| && str == done + s[pos..] && startPos == |done|
    && done + ReplaceFrom(s, from, to, pos) == ReplaceEvery(s, from, to)
    && found == FindFrom(str, from, startPos)
  }

  /** Before the loop nothing is done and the search starts at 0. */
  lemma LoopStarts(s: Bytes, from: Bytes, to: Bytes)
    requires |from| > 0
    ensures LoopState(s, from, to, s, 0, FindFrom(s, from, 0), [], 0)
  {
    assert s == [] + s[0..];
  }

  /** When the search fails, `str` is the result. */
  lemma LoopEnds(s: Bytes, from: Bytes, to: Bytes, str: Bytes, startPos: nat, done: Bytes, pos: nat)
    requires |from| > 0 && LoopState(s, from, to, str, startPos, None, done, pos)
    ensures str == ReplaceEvery(s, from, to)
  {
    FindFromSameTail(str, s, from, |done|, pos);
    ReplaceFromNone(s, from, to, pos);
  }

  /**
   * One turn of the loop on `str == done + s[pos..]`: the occurrence found in
   * `str` at `p` is the next one of `s`, and after the replacement `str` has
   * the same shape with both parts moved past it.
   */
  lemma LoopStep(s: Bytes, from: Bytes, to: Bytes, str: Bytes, done: Bytes, pos: nat, p: nat)
    returns (done': Bytes, pos': nat)
    requires |from| > 0 && pos <= |s| && str == done + s[pos..]
    requires FindFrom(str, from, |done|) == Some(p) && p + |from| <= |str|
    ensures pos < pos' <= |s| && |done'| == p + |to|
    ensures str[..p] + to + str[p + |from|..] == done' + s[pos'..]
    ensures done' + ReplaceFrom(s, from, to, pos') == done + ReplaceFrom(s, from, to, pos)
  {
    var q := FoundInRest(str, done, s, from, pos, p);
    ReplaceFromUnfoldAfter(done, s, from, to, pos, q);
    done' := done + s[pos..q] + to;
    pos' := q + |from|;
    SpliceRest(str, done, s, pos, p, q, |from|, to);
  }

  /** An occurrence found at `p` in `str == done + s[pos..]` is the first one of `s` from `pos`. */
  lemma FoundInRest(str: Bytes, done: Bytes, s: Bytes, from: Bytes, pos: nat, p: nat) returns (q: nat)
    requires pos <= |s| && str == done + s[pos..]
    requires FindFrom(str, from, |done|) == Some(p)
    ensures FindFrom(s, from, pos) == Some(q) && pos <= q && q == pos + p - |done| && q + |from| <= |s|
  {
    FindFromSameTail(str, s, from, |done|, pos);
    FindFromOccurs(s, from, pos);
    q := FindFrom(s, from, pos).value;
  }

  /** One occurrence, after a prefix that is already done. */
  lemma ReplaceFromUnfoldAfter(done: Bytes, s: Bytes, from: Bytes, to: Bytes, pos: nat, i: nat)
    requires |from| > 0 && pos <= i && FindFrom(s, from, pos) == Some(i) && i + |from| <= |s|
    ensures done + ReplaceFrom(s, from, to, pos) == (done + s[pos..i] + to) + ReplaceFrom(s, from, to, i + |from|)
  {
    ReplaceFromUnfold(s, from, to, pos, i);
    Regroup(done, s[pos..i], to, ReplaceFrom(s, from, to, i + |from|));
  }

  /** A turn of the loop keeps its state, and moves on in `s`. */
  lemma LoopAdvances(s: Bytes, from: Bytes, to: Bytes, str: Bytes, startPos: nat, found: Option<nat>,
                     done: Bytes, pos: nat)
    returns (done': Bytes, pos': nat)
    requires |from| > 0 && LoopState(s, from, to, str, startPos, found, done, pos) && found.Some?
    requires found.value + |from| <= |str|
    ensures var str' := str[..found.value] + to + str[found.value + |from|..];
      LoopState(s, from, to, str', found.value + |to|, FindFrom(str', from, found.value + |to|), done', pos')
    ensures pos < pos'
  {
    done', pos' := LoopStep(s, from, to, str, done, pos, found.value);
    Trans(done' + ReplaceFrom(s, from, to, pos'), done + ReplaceFrom(s, from, to, pos), ReplaceEvery(s, from, to));
    var str' := str[..found.value] + to + str[found.value + |from|..];
    LoopResumes(s, from, to, str', found.value + |to|, done', pos');
  }

  /** Once the search has moved on, the state again holds for the new `str` and `start_pos`. */
  lemma LoopResumes(s: Bytes, from: Bytes, to: Bytes, str: Bytes, startPos: nat, done: Bytes, pos: nat)
    requires |from| > 0 && pos <= |s| && str == done + s[pos..] && startPos == |done|
    requires done + ReplaceFrom(s, from, to, pos) == ReplaceEvery(s, from, to)
    ensures LoopState(s, from, to, str, startPos, FindFrom(str, from, startPos), done, pos)
  {
  }

  lemma FoundFits(s: Bytes, pat: Bytes, pos: nat)
    ensures FindFrom(s, pat, pos).Some? ==> FindFrom(s, pat, pos).value + |pat| <= |s|
  {
    FindFromOccurs(s, pat, pos);
  }

  /** Replacing `n` bytes at `p` of `str == done + s[pos..]`, which is `q` in `s`. */
  lemma SpliceRest(str: Bytes, done: Bytes, s: Bytes, pos: nat, p: nat, q: nat, n: nat, to: Bytes)
    requires pos <= |s| && str == done + s[pos..] && |done| <= p && p + n <= |str| && q == pos + p - |done|
    ensures str[..p] + to + str[p + n..] == (done + s[pos..q] + to) + s[q + n..]
  {
    assert str[..p] == done + s[pos..q];
    assert str[p + n..] == s[q + n..];
  }

  lemma Regroup(a: Bytes, b: Bytes, c: Bytes, d: Bytes)
    ensures a + (b + c + d) == (a + b + c) + d
  {
  }

  /** Sequence equality chained explicitly, which the solver otherwise finds slowly among many sequence facts. */
  lemma Trans(a: Bytes, b: Bytes, c: Bytes)
    requires a == b && b == c
    ensures a == c
  {
  }

  /**
   * `replace_all`: find `from` at or after `start_pos`, replace it, and resume
   * after the inserted text. The source loops forever on an empty `from`
   * (see `EmptyPatternIsAlwaysFound`), so callers must pass a non-empty one.
   */
  method ReplaceAll(s: Bytes, from: Bytes, to: Bytes) returns (str: Bytes)
    requires |from| > 0
    ensures str == ReplaceEvery(s, from, to)
  {
    str := s;
    var startPos: nat := 0;
    var found: Option<nat> := FindFrom(str, from, startPos);
    ghost var done: Bytes := [];
    ghost var pos: nat := 0;
    LoopStarts(s, from, to);
    while found.Some?
      invariant LoopState(s, from, to, str, startPos, found, done, pos)
      decreases |s| - pos
    {
      FoundFits(str, from, startPos);
      done, pos := LoopAdvances(s, from, to, str, startPos, found, done, pos);
      str := str[..found.value] + to + str[found.value + |from|..];
      startPos := found.value + |to|;
      found := FindFrom(str, from, startPos);
    }
    LoopEnds(s, from, to, str, startPos, done, pos);
  }

  /** The rest is unchanged exactly when nothing is found in it. */
  lemma {:induction false} ReplaceFromNone(s: Bytes, from: Bytes, to: Bytes, pos: nat)
    requires |from| > 0 && pos <= |s|
    ensures OccurrencesFrom(s, from, pos) == 0 <==> FindFrom(s, from, pos).None?
    ensures FindFrom(s, from, pos).None? ==> ReplaceFrom(s, from, to, pos) == s[pos..]
  {
    FindFromOccurs(s, from, pos);
  }

  /** Each replacement changes the length by `|to| - |from|`. */
  lemma {:induction false} ReplaceFromLength(s: Bytes, from: Bytes, to: Bytes, pos: nat)
    requires |from| > 0 && pos <= |s|
    ensures |ReplaceFrom(s, from, to, pos)| == |s| - pos + OccurrencesFrom(s, from, pos) * (|to| - |from|)
    decreases |s| - pos
  {
    FindFromOccurs(s, from, pos);
    match FindFrom(s, from, pos)
    case None =>
    case Some(i) =>
      ReplaceFromLength(s, from, to, i + |from|);
      ReplaceFromUnfold(s, from, to, pos, i);
      LengthStep(|ReplaceFrom(s, from, to, pos)|, |ReplaceFrom(s, from, to, i + |from|)|,
        |s|, pos, i, |from|, |to|, OccurrencesFrom(s, from, i + |from|), OccurrencesFrom(s, from, pos));
  }

  /** The arithmetic of one step of `ReplaceFromLength`. */
  lemma LengthStep(total: int, rest: int, len: int, pos: int, i: int, m: int, k: int, n: int, occ: int)
    requires rest == len - (i + m) + n * (k - m)
    requires total == i - pos + k + rest && occ == 1 + n
    ensures total == len - pos + occ * (k - m)
  {
    assert occ * (k - m) == (k - m) + n * (k - m);
  }

  /** One occurrence: `ReplaceFrom` and `OccurrencesFrom` at `pos` in terms of the rest after it. */
  lemma ReplaceFromUnfold(s: Bytes, from: Bytes, to: Bytes, pos: nat, i: nat)
    requires |from| > 0 && pos <= i && FindFrom(s, from, pos) == Some(i) && i + |from| <= |s|
    ensures ReplaceFrom(s, from, to, pos) == s[pos..i] + to + ReplaceFrom(s, from, to, i + |from|)
    ensures OccurrencesFrom(s, from, pos) == 1 + OccurrencesFrom(s, from, i + |from|)
  {
  }

  /** `replace_all` leaves a string without `from` as it is, and changes the length by `|to| - |from|` per occurrence. */
  lemma ReplaceEveryLength(s: Bytes, from: Bytes, to: Bytes)
    requires |from| > 0
    ensures OccurrencesFrom(s, from, 0) == 0 <==> !Contains(s, from)
    ensures !Contains(s, from) ==> ReplaceEvery(s, from, to) == s
    ensures |ReplaceEvery(s, from, to)| == |s| + OccurrencesFrom(s, from, 0) * (|to| - |from|)
  {
    ReplaceFromNone(s, from, to, 0);
    ReplaceFromLength(s, from, to, 0);
  }

  /** The inserted text is not searched again: replacing "a" by "aa" in "a" gives "aa", and stops. */
  lemma InsertedTextIsNotRescanned(s: Bytes, from: Bytes, to: Bytes)
    requires s == [0x61] && from == [0x61] && to == [0x61, 0x61]
    ensures ReplaceEvery(s, from, to) == to
  {
    assert FindFrom(s, from, 0) == Some(0);
    assert FindFrom(s, from, 1) == None;
    ReplaceFromUnfold(s, from, to, 0, 0);
    ReplaceFromNone(s, from, to, 1);
  }

  /**
   * With an empty `from` the search always succeeds at `start_pos`, and the
   * next `start_pos` is still within the new string: the loop of the source
   * never ends.
   */
  lemma EmptyPatternIsAlwaysFound(str: Bytes, to: Bytes, startPos: nat)
    requires startPos <= |str|
    ensures FindFrom(str, [], startPos) == Some(startPos)
    ensures var str' := str[..startPos] + to + str[startPos..];
      startPos + |to| <= |str'| && FindFrom(str', [], startPos + |to|) == Some(startPos + |to|)
  {
    assert OccursAt(str, [], startPos);
    var str' := str[..startPos] + to + str[startPos..];
    assert OccursAt(str', [], startPos + |to|);
  }

  // ---------------------------------------------------------------- mecab_params

  /** The fields of `mecab_params`; the dictionary directory is found on the filesystem and is not assignable. */
  datatype MecabParams = MecabParams(word: Bytes, sentence: Bytes, userDict: Bytes, dicDir: Bytes)

  /** `mecab_params::assign`: `--word`, `--sentence` and `--user-dict` set their field; any other key raises. */
  function Assign(p: MecabParams, key: Bytes, value: Bytes): (r: Result<MecabParams, Failure>)
    ensures r.Ok? <==> key in {Ascii("--word"), Ascii("--sentence"), Ascii("--user-dict")}
    ensures r.Err? ==> r.error == RuntimeError(UnknownArgumentName(key))
    ensures key == Ascii("--word") ==> r == Ok(p.(word := value))
    ensures key == Ascii("--sentence") ==> r == Ok(p.(sentence := value))
    ensures key == Ascii("--user-dict") ==> r == Ok(p.(userDict := value))
  {
    if key == Ascii("--word") then Ok(p.(word := value))
    else if key == Ascii("--sentence") then Ok(p.(sentence := value))
    else if key == Ascii("--user-dict") then Ok(p.(userDict := value))
    else Err(RuntimeError(UnknownArgumentName(key)))
  }

  function Word(p: MecabParams): Bytes {
    p.word
  }

  /** An unknown option with a valid value stops `fill_args` with "Unknown argument name". */
  lemma UnknownOptionIsRejected(init: MecabParams, key: Bytes, value: Bytes, rest: seq<Bytes>)
    requires StartsWithDash(key) && !IsHelpFlag(key)
    requires key !in {Ascii("--word"), Ascii("--sentence"), Ascii("--user-dict")}
    requires value != [] && !StartsWithDash(value)
    ensures FilledArgs([key, value] + rest, init, Assign, Word) == Err(RuntimeError(UnknownArgumentName(key)))
  {
    var args := [key, value] + rest;
    assert args[0] == key && args[1] == value;
  }

  // ---------------------------------------------------------------- lookup_words

  /** `>word<`: the word as the whole text of a node. */
  function NodeText(word: Bytes): Bytes {
    Ascii(">") + word + Ascii("<")
  }

  /** `><b>word</b><`: the same text in bold. */
  function BoldNodeText(word: Bytes): Bytes {
    Ascii("><b>") + word + Ascii("</b><")
  }

  /** Line 181: every node whose text is the word is made bold. */
  function WrapHeadword(tagged: Bytes, word: Bytes): Bytes {
    ReplaceEvery(tagged, NodeText(word), BoldNodeText(word))
  }

  /** The link the tagger writes for a node with surface `m` and base form `f6` (`--node-format`). */
  function Node(f6: Bytes, m: Bytes): Bytes {
    Ascii("<a href=\"bword:") + f6 + Ascii("\" title=\"") + f6 + Ascii("\">") + m + Ascii("</a>")
  }

  /** The opening tag of `Node(f6, m)`. */
  function OpenTag(f6: Bytes): Bytes {
    Ascii("<a href=\"bword:") + f6 + Ascii("\" title=\"") + f6 + Ascii("\"")
  }

  /**
   * A node whose text is the word comes out with that text in bold, when its
   * base form has no `>`: the only `>word<` of the node is the one around its text.
   */
  lemma NodeOfWordIsBold(f6: Bytes, word: Bytes)
    requires '>' as int !in f6
    ensures WrapHeadword(Node(f6, word), word) == OpenTag(f6) + Ascii("><b>") + word + Ascii("</b></a>")
  {
    var open := OpenTag(f6);
    var from := NodeText(word);
    var tail := Ascii("/a>");
    NodeSplits(f6, word);
    NoOccurrenceBefore(open, from + tail, from);
    assert open + (from + tail) == open + from + tail;
    NoOccurrenceAfter(open + from, tail, from);
    ReplaceOnlyOccurrence(open, from, BoldNodeText(word), tail);
    assert Ascii("</b><") + tail == Ascii("</b></a>");
  }

  /** `Node(f6, word)` is its opening tag, then `>word<`, then `/a>`. */
  lemma NodeSplits(f6: Bytes, word: Bytes)
    requires '>' as int !in f6
    ensures Node(f6, word) == OpenTag(f6) + NodeText(word) + Ascii("/a>")
    ensures '>' as int !in OpenTag(f6)
  {
    assert Ascii("\">") == Ascii("\"") + Ascii(">");
    assert Ascii("</a>") == Ascii("<") + Ascii("/a>");
    assert '>' as int !in Ascii("<a href=\"bword:");
    assert '>' as int !in Ascii("\" title=\"");
    assert '>' as int !in Ascii("\"");
  }

  /** A pattern that occurs once in `head + from + tail`, as the `from` there, is replaced there only. */
  lemma ReplaceOnlyOccurrence(head: Bytes, from: Bytes, to: Bytes, tail: Bytes)
    requires |from| > 0
    requires forall j :: 0 <= j < |head| ==> !OccursAt(head + from + tail, from, j)
    requires forall j :: |head| + |from| <= j ==> !OccursAt(head + from + tail, from, j)
    ensures ReplaceEvery(head + from + tail, from, to) == head + to + tail
  {
    var s := head + from + tail;
    var e := |head| + |from|;
    assert OccursAt(s, from, |head|);
    FindFirst(s, from, |head|);
    NotFoundFrom(s, from, e);
    ReplaceFromNone(s, from, to, e);
    ReplaceFromUnfold(s, from, to, 0, |head|);
    assert s[0..|head|] == head && s[e..] == tail;
    Trans(ReplaceEvery(s, from, to), s[0..|head|] + to + ReplaceFrom(s, from, to, e), s[0..|head|] + to + s[e..]);
  }

  /** No occurrence of a pattern starts inside a prefix that lacks its first byte. */
  lemma NoOccurrenceBefore(x: Bytes, rest: Bytes, pat: Bytes)
    requires |pat| > 0 && pat[0] !in x
    ensures forall j :: 0 <= j < |x| ==> !OccursAt(x + rest, pat, j)
  {
    forall j | 0 <= j < |x| ensures !OccursAt(x + rest, pat, j) {
      if j + |pat| <= |x + rest| {
        assert (x + rest)[j..j + |pat|][0] == (x + rest)[j] == x[j];
      }
    }
  }

  /** No occurrence of a pattern starts in a tail whose bytes that could start one differ from its first byte. */
  lemma NoOccurrenceAfter(x: Bytes, tail: Bytes, pat: Bytes)
    requires |pat| > 0 && forall k :: 0 <= k && k + |pat| <= |tail| ==> tail[k] != pat[0]
    ensures forall j :: |x| <= j ==> !OccursAt(x + tail, pat, j)
  {
    forall j | |x| <= j ensures !OccursAt(x + tail, pat, j) {
      if j + |pat| <= |x + tail| {
        assert (x + tail)[j..j + |pat|][0] == (x + tail)[j] == tail[j - |x|];
      }
    }
  }

  /** The first occurrence is at `i` when it occurs there and nowhere before. */
  lemma FindFirst(s: Bytes, pat: Bytes, i: nat)
    requires OccursAt(s, pat, i) && forall j :: 0 <= j < i ==> !OccursAt(s, pat, j)
    ensures FindFrom(s, pat, 0) == Some(i)
  {
    FindFromFinds(s, pat, 0);
  }

  lemma NotFoundFrom(s: Bytes, pat: Bytes, pos: nat)
    requires forall j :: pos <= j ==> !OccursAt(s, pat, j)
    ensures FindFrom(s, pat, pos) == None
  {
    FindFromFinds(s, pat, pos);
  }

  /** What gd-mecab prints in its `gd-mecab` block, or why it stopped. */
  datatype MecabPage = MecabPage(result: Bytes)

  /**
   * `lookup_words` of gd-mecab: the word is folded to full width and loses its
   * whitespace; the sentence loses its whitespace and becomes the word when
   * nothing is left, else is folded; a missing dictionary directory or a
   * tagger that cannot be created raises; the tagged sentence has every node
   * equal to the word made bold.
   */
  function MecabLookedUp(p: MecabParams, halfToFull: Bytes -> Bytes, dicDirExists: bool,
                         taggerCreated: bool, tagger: Bytes -> Bytes): (r: Result<MecabPage, Failure>)
    ensures r.Err? <==> !dicDirExists || !taggerCreated
    ensures !dicDirExists ==> r == Err(RuntimeError(DictionaryDirectoryMissing))
    ensures dicDirExists && !taggerCreated ==> r == Err(RuntimeError(TaggerFailed))
  {
    var word := EraseSpaces(halfToFull(p.word));
    var sentence := EraseSpaces(p.sentence);
    var sentence' := if sentence == [] then word else halfToFull(sentence);
    if !dicDirExists then Err(RuntimeError(DictionaryDirectoryMissing))
    else if !taggerCreated then Err(RuntimeError(TaggerFailed))
    else Ok(MecabPage(WrapHeadword(tagger(sentence'), word)))
  }

  /**
   * A sentence of only whitespace is replaced by the folded word; when the
   * tagger reads it as one node with that surface, the page shows that node's
   * text in bold.
   */
  lemma BlankSentenceShowsWordInBold(p: MecabParams, halfToFull: Bytes -> Bytes, tagger: Bytes -> Bytes, f6: Bytes)
    requires EraseSpaces(p.sentence) == []
    requires tagger(EraseSpaces(halfToFull(p.word))) == Node(f6, EraseSpaces(halfToFull(p.word)))
    requires '>' as int !in f6
    ensures var word := EraseSpaces(halfToFull(p.word));
      MecabLookedUp(p, halfToFull, true, true, tagger)
        == Ok(MecabPage(OpenTag(f6) + Ascii("><b>") + word + Ascii("</b></a>")))
  {
    NodeOfWordIsBold(f6, EraseSpaces(halfToFull(p.word)));
  }

  /** Tagger output without a node whose text is the word is shown as the tagger wrote it. */
  lemma OutputWithoutWordIsUnchanged(p: MecabParams, halfToFull: Bytes -> Bytes, tagger: Bytes -> Bytes)
    requires var word := EraseSpaces(halfToFull(p.word));
      var sentence := EraseSpaces(p.sentence);
      !Contains(tagger(if sentence == [] then word else halfToFull(sentence)), NodeText(word))
    ensures var word := EraseSpaces(halfToFull(p.word));
      var sentence := EraseSpaces(p.sentence);
      MecabLookedUp(p, halfToFull, true, true, tagger)
        == Ok(MecabPage(tagger(if sentence == [] then word else halfToFull(sentence))))
  {
    var word := EraseSpaces(halfToFull(p.word));
    var sentence := EraseSpaces(p.sentence);
    ReplaceEveryLength(tagger(if sentence == [] then word else halfToFull(sentence)), NodeText(word), BoldNodeText(word));
  }
}
