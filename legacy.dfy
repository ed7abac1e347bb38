/**
 * The two stand-alone predecessors of the segmenter: gd-marisa/gd-marisa.cpp
 * and gd-mecab2/createlinks.cpp. Both walk the sentence byte by byte, keep
 * the byte length of the last lead byte in a variable `byte`, and emit one
 * link per byte that is not a continuation byte. gd-marisa also highlights the
 * selected word with a counter `j` and lists the keys that are prefixes of it.
 */
module Legacy {
  import opened Wrappers
  import opened ByteStrings
  import opened Utf8Walk
  import opened PrefixDict
  import Headword
  import Segmenter
  import opened LinkWalk

  // ------------------------------------------------------- lead bytes and `byte`

  /**
   * What the tests on a byte do to `byte`: a continuation byte is skipped
   * (None), a lead byte sets it to the length the shared classifier gives,
   * and a byte in 0xF8..0xFF, which no test matches, leaves it at `prev`.
   */
  function LeadLen(b: Byte, prev: nat): (r: Option<nat>)
    ensures r.None? <==> IsContinuation(b)
  {
    if IsContinuation(b) then None
    else if b < 0xF8 then Some(ByteLen(b))
    else Some(prev)
  }

  /** On the bytes it accepts, the shared classifier gives the same lengths; the others keep `byte`. */
  lemma LeadLenAgreesWithClassifier(b: Byte, prev: nat)
    ensures b < 0xF8 ==> (LeadLen(b, prev).None? <==> UnicodeCharByteLen(b) == Ok(0))
    ensures b < 0xF8 && LeadLen(b, prev).Some? ==> UnicodeCharByteLen(b) == Ok(LeadLen(b, prev).value)
    ensures b >= 0xF8 ==> UnicodeCharByteLen(b).Err? && LeadLen(b, prev) == Some(prev)
  {
    ClassifierIsByteClass(b);
  }

  /** What each mask test of the walk selects, as a byte range. */
  lemma MaskTests(b: Byte)
    ensures (b as bv8) & 0xC0 == 0x80 <==> 0x80 <= b < 0xC0
    ensures (b as bv8) & 0xF0 == 0xE0 <==> 0xE0 <= b < 0xF0
    ensures (b as bv8) & 0x80 == 0x00 <==> b < 0x80
    ensures (b as bv8) & 0xE0 == 0xC0 <==> 0xC0 <= b < 0xE0
    ensures (b as bv8) & 0xF8 == 0xF0 <==> 0xF0 <= b < 0xF8
  {
    ClassifierIsByteClass(b);
  }

  /** The mask tests of the walk, in their order in the code. */
  method ClassifyByte(b: Byte, prev: nat) returns (r: Option<nat>)
    ensures r == LeadLen(b, prev)
  {
    MaskTests(b);
    var x := b as bv8;
    if x & 0xC0 == 0x80 {
      r := None;
    } else if x & 0xF0 == 0xE0 {
      r := Some(3);
    } else if x & 0x80 == 0x00 {
      r := Some(1);
    } else if x & 0xE0 == 0xC0 {
      r := Some(2);
    } else if x & 0xF8 == 0xF0 {
      r := Some(4);
    } else {
      r := Some(prev);
    }
  }

  /** A position of the walk: the offset of a byte that is not a continuation byte, and `byte` there. */
  datatype Lead = Lead(at: nat, len: nat)

  /** `byte` after the positions `leads`: the length of the last one, or its initial value. */
  function Stale(leads: seq<Lead>, byte0: nat): nat {
    if leads == [] then byte0 else leads[|leads| - 1].len
  }

  predicate Within(s: Bytes, leads: seq<Lead>) {
    forall k :: 0 <= k < |leads| ==> leads[k].at < |s|
  }

  /**
   * The positions the walk visits among the first `n` bytes of `s`, in order.
   * `byte` is declared without a value, so `byte0` stands for whatever it
   * holds before the first lead byte.
   */
  function LeadsUpTo(s: Bytes, byte0: nat, n: nat): (r: seq<Lead>)
    requires n <= |s|
    ensures forall k :: 0 <= k < |r| ==> r[k].at < n
    decreases n
  {
    if n == 0 then []
    else
      var leads := LeadsUpTo(s, byte0, n - 1);
      match LeadLen(s[n - 1], Stale(leads, byte0))
      case None => leads
      case Some(b) => leads + [Lead(n - 1, b)]
  }

  /** The text shown for a position: `substr(i, byte)`. */
  function TextOf(s: Bytes, l: Lead): Bytes
    requires l.at <= |s|
  {
    Substr(s, l.at, l.len)
  }

  function ViewOf(s: Bytes, l: Lead): CharView
    requires l.at <= |s|
  {
    CharView(l.at, TextOf(s, l))
  }

  function Views(s: Bytes, leads: seq<Lead>): (vs: seq<CharView>)
    requires Within(s, leads)
    ensures |vs| == |leads| && forall k :: 0 <= k < |leads| ==> vs[k] == ViewOf(s, leads[k])
  {
    seq(|leads|, k requires 0 <= k < |leads| => ViewOf(s, leads[k]))
  }

  /**
   * On a sentence without bytes 0xF8..0xFF the walk visits exactly the
   * positions of `iter_unicode_chars` and shows the same substrings; the
   * initial value of `byte` is never used.
   */
  lemma LeadsAreUnicodeChars(s: Bytes, byte0: nat)
    requires NoBadBytes(s)
    ensures IterUnicodeChars(s).Ok?
    ensures Views(s, LeadsUpTo(s, byte0, |s|)) == IterUnicodeChars(s).value
  {
    LeadsFollowIter(s, byte0, |s|);
    assert s[|s|..] == [];
    assert Iter([], |s|) == Ok([]);
    assert Views(s, LeadsUpTo(s, byte0, |s|)) + [] == Views(s, LeadsUpTo(s, byte0, |s|));
  }

  /** The positions before `k`, followed by the walk of the rest, make up the walk of the whole. */
  lemma {:induction false} LeadsFollowIter(s: Bytes, byte0: nat, k: nat)
    requires k <= |s| && NoBadBytes(s)
    ensures Iter(s[k..], k).Ok? && Iter(s, 0).Ok?
    ensures Iter(s, 0).value == Views(s, LeadsUpTo(s, byte0, k)) + Iter(s[k..], k).value
    decreases k
  {
    IterSucceeds(s[k..], k);
    if k == 0 {
      assert s[0..] == s;
      assert Views(s, []) == [];
    } else {
      LeadsFollowIter(s, byte0, k - 1);
      var t := s[k - 1..];
      assert t[1..] == s[k..];
      var leads := LeadsUpTo(s, byte0, k - 1);
      if IsContinuation(s[k - 1]) {
        IterSkipsContinuation(t, k - 1);
      } else {
        IterYieldsLead(t, k - 1);
        var l := Lead(k - 1, ByteLen(s[k - 1]));
        SubstrOfSuffix(s, k - 1, l.len);
        assert Iter(t, k - 1).value == [ViewOf(s, l)] + Iter(s[k..], k).value;
        ViewsSnoc(s, leads, l);
      }
    }
  }

  lemma SubstrOfSuffix(s: Bytes, pos: nat, count: nat)
    requires pos <= |s|
    ensures Substr(s[pos..], 0, count) == Substr(s, pos, count)
  {
  }

  lemma ViewsSnoc(s: Bytes, leads: seq<Lead>, l: Lead)
    requires Within(s, leads) && l.at < |s|
    ensures Within(s, leads + [l])
    ensures Views(s, leads + [l]) == Views(s, leads) + [ViewOf(s, l)]
  {
    assert forall k :: 0 <= k < |leads| ==> (leads + [l])[k] == leads[k];
  }

  /**
   * Where the segmenter raises on the byte 0xF8, the walk shows it with the
   * length of the codepoint before it: after "A" it is one byte long.
   */
  lemma StaleByteAfterAscii(s: Bytes, byte0: nat)
    requires s == [0x41, 0xF8]
    ensures LeadsUpTo(s, byte0, 2) == [Lead(0, 1), Lead(1, 1)]
    ensures IterUnicodeChars(s).Err?
  {
    assert LeadsUpTo(s, byte0, 1) == [Lead(0, 1)];
    IterSucceeds(s, 0);
  }

  /** A sentence that starts with 0xF8 is shown with `byte`'s initial value as its length. */
  lemma UninitialisedByteRead(s: Bytes, byte0: nat)
    requires s == [0xF8]
    ensures LeadsUpTo(s, byte0, 1) == [Lead(0, byte0)]
    ensures TextOf(s, Lead(0, byte0)) == if byte0 == 0 then [] else s
  {
  }

  // ------------------------------------------------------------- gd-marisa links

  /** How a tool finds the `bword` of a position. */
  type Target = Lead -> Bytes

  /** The bytes from offset `at` on; the walk only asks for offsets inside the sentence. */
  function Suffix(s: Bytes, at: nat): Bytes {
    if at <= |s| then s[at..] else []
  }

  /** `search(gdsearch.substr(i), byte)` of gd-marisa: the longest key before the first NUL, or `byte` bytes. */
  function GdMarisaTarget(d: Dictionary, s: Bytes): Target {
    (l: Lead) => Segmenter.LongestMatch(d, Suffix(s, l.at), l.len)
  }

  /** `j` right after the match test at the last position of `leads`: the `bword`'s length on a match, else `j` before it. */
  function Matched(bw: Target, word: Bytes, leads: seq<Lead>): int
    requires leads != []
    decreases |leads|, 0
  {
    var l := leads[|leads| - 1];
    if bw(l) == word then |bw(l)| else CounterAfter(bw, word, leads[..|leads| - 1])
  }

  /** `j` after the positions `leads`: reduced by `byte` when the position was shown in bold; it starts at 0. */
  function CounterAfter(bw: Target, word: Bytes, leads: seq<Lead>): int
    decreases |leads|, 1
  {
    if leads == [] then 0
    else
      var j := Matched(bw, word, leads);
      if j > 0 then j - leads[|leads| - 1].len else j
  }

  /**
   * The links of the positions `leads`: each shows `substr(i, byte)`, links
   * to its `bword`, and is bold when `j > 0` after the match test.
   */
  function LegacyLinks(bw: Target, word: Bytes, s: Bytes, leads: seq<Lead>): (r: seq<Link>)
    requires Within(s, leads)
    ensures |r| == |leads|
  {
    if leads == [] then []
    else
      var l := leads[|leads| - 1];
      LegacyLinks(bw, word, s, leads[..|leads| - 1]) + [Link(Matched(bw, word, leads) > 0, bw(l), TextOf(s, l))]
  }

  /** The positions among the first `i + 1` bytes: those among the first `i`, and byte `i` when it is not a continuation byte. */
  lemma LeadsUpToNext(s: Bytes, byte0: nat, i: nat, lead: Option<nat>, leads: seq<Lead>, next: seq<Lead>)
    requires i < |s| && leads == LeadsUpTo(s, byte0, i)
    requires lead == LeadLen(s[i], Stale(leads, byte0))
    requires next == if lead.Some? then leads + [Lead(i, lead.value)] else leads
    ensures next == LeadsUpTo(s, byte0, i + 1) && Within(s, next)
    ensures Stale(next, byte0) == if lead.Some? then lead.value else Stale(leads, byte0)
  {
  }

  /**
   * One byte more of gd-marisa: the positions after it and, at a lead byte
   * with its `bword` given, `j` after the match test, the new link, and `j`
   * after it.
   */
  lemma GdMarisaStep(d: Dictionary, word: Bytes, s: Bytes, byte0: nat, i: nat, lead: Option<nat>,
                     leads: seq<Lead>, j: int, bword: Bytes)
      returns (next: seq<Lead>)
    requires i < |s| && leads == LeadsUpTo(s, byte0, i)
    requires lead == LeadLen(s[i], Stale(leads, byte0))
    requires j == CounterAfter(GdMarisaTarget(d, s), word, leads)
    requires lead.Some? ==> bword == Segmenter.LongestMatch(d, s[i..], lead.value)
    ensures next == LeadsUpTo(s, byte0, i + 1) && Within(s, leads) && Within(s, next)
    ensures Stale(next, byte0) == if lead.Some? then lead.value else Stale(leads, byte0)
    ensures lead.None? ==>
      CounterAfter(GdMarisaTarget(d, s), word, next) == j &&
      LegacyLinks(GdMarisaTarget(d, s), word, s, next) == LegacyLinks(GdMarisaTarget(d, s), word, s, leads)
    ensures lead.Some? ==> var j1 := if bword == word then |bword| else j;
      CounterAfter(GdMarisaTarget(d, s), word, next) == (if j1 > 0 then j1 - lead.value else j1) &&
      LegacyLinks(GdMarisaTarget(d, s), word, s, next) ==
        LegacyLinks(GdMarisaTarget(d, s), word, s, leads) + [Link(j1 > 0, bword, Substr(s, i, lead.value))]
  {
    next := if lead.Some? then leads + [Lead(i, lead.value)] else leads;
    LeadsUpToNext(s, byte0, i, lead, leads, next);
    if lead.Some? {
      var bw := GdMarisaTarget(d, s);
      var l := Lead(i, lead.value);
      assert bw(l) == bword;
      LegacySnoc(bw, word, s, leads, l, j, bword);
    }
  }

  /** One position more, with its `bword` given: `j` after the match test, the new link, and `j` after it. */
  lemma LegacySnoc(bw: Target, word: Bytes, s: Bytes, leads: seq<Lead>, l: Lead, j: int, bword: Bytes)
    requires Within(s, leads) && l.at < |s| && bw(l) == bword
    requires j == CounterAfter(bw, word, leads)
    ensures Within(s, leads + [l])
    ensures var j1 := if bword == word then |bword| else j;
      CounterAfter(bw, word, leads + [l]) == (if j1 > 0 then j1 - l.len else j1) &&
      LegacyLinks(bw, word, s, leads + [l]) == LegacyLinks(bw, word, s, leads) + [Link(j1 > 0, bword, TextOf(s, l))]
  {
    var ls := leads + [l];
    assert ls[..|ls| - 1] == leads;
  }

  /**
   * The link of one position of gd-marisa and `j` after it: `j` becomes the
   * `bword`'s length when it is the word, and the position is bold while
   * `j > 0`, which then drops by `byte`.
   */
  method Highlight(word: Bytes, bword: Bytes, j: int, text: Bytes, byte: nat) returns (link: Link, j': int)
    ensures var j1 := if bword == word then |bword| else j;
      link == Link(j1 > 0, bword, text) && j' == (if j1 > 0 then j1 - byte else j1)
  {
    j' := j;
    if bword == word {
      j' := |bword|;
    }
    if j' > 0 {
      link := Link(true, bword, text);
      j' := j' - byte;
    } else {
      link := Link(false, bword, text);
    }
  }

  /**
   * The sentence loop of gd-marisa: skip continuation bytes, classify lead
   * bytes into `byte`, look up the `bword`, set `j` to its length when it is
   * the word, and show the position in bold while `j > 0`, reducing `j` by
   * `byte`.
   */
  method GdMarisaLinks(d: Dictionary, word: Bytes, s: Bytes, byte0: nat) returns (links: seq<Link>)
    ensures links == LegacyLinks(GdMarisaTarget(d, s), word, s, LeadsUpTo(s, byte0, |s|))
  {
    ghost var leads: seq<Lead> := [];
    var byte := byte0;
    var j := 0;
    links := [];
    for i := 0 to |s|
      invariant leads == LeadsUpTo(s, byte0, i) && Within(s, leads)
      invariant byte == Stale(leads, byte0)
      invariant j == CounterAfter(GdMarisaTarget(d, s), word, leads)
      invariant links == LegacyLinks(GdMarisaTarget(d, s), word, s, leads)
    {
      var lead := ClassifyByte(s[i], byte);
      if lead.Some? {
        byte := lead.value;
        var bword := Segmenter.LongestResult(d, s[i..], byte);
        leads := GdMarisaStep(d, word, s, byte0, i, lead, leads, j, bword);
        var link;
        link, j := Highlight(word, bword, j, Substr(s, i, byte), byte);
        links := links + [link];
      } else {
        leads := GdMarisaStep(d, word, s, byte0, i, lead, leads, j, []);
      }
    }
  }

  /** The headword tests of the positions: the `bword` is the word, and the position's length is `byte`. */
  function LegacySteps(bw: Target, word: Bytes, leads: seq<Lead>): (h: seq<Headword.Step>)
    ensures |h| == |leads|
  {
    if leads == [] then []
    else LegacySteps(bw, word, leads[..|leads| - 1]) + [StepOf(bw, word, leads[|leads| - 1])]
  }

  function StepOf(bw: Target, word: Bytes, l: Lead): Headword.Step {
    Headword.Step(bw(l) == word, l.len)
  }

  /** `j` is the legacy counter of the headword rule, and a position is bold by that rule. */
  lemma {:induction false} CounterAfterIsLegacyCounter(bw: Target, word: Bytes, leads: seq<Lead>)
    ensures CounterAfter(bw, word, leads) == Headword.LegacyCounter(|word|, LegacySteps(bw, word, leads))
    ensures leads != [] ==> (Matched(bw, word, leads) > 0 <==> Headword.Bold(|word|, LegacySteps(bw, word, leads)))
    decreases |leads|
  {
    if leads != [] {
      var init := leads[..|leads| - 1];
      CounterAfterIsLegacyCounter(bw, word, init);
      var h := LegacySteps(bw, word, leads);
      assert Headword.Init(h) == LegacySteps(bw, word, init);
    }
  }

  /** Link `k` shows position `k`, links to its `bword`, and is bold after the match test there. */
  lemma {:induction false} LegacyLinksAt(bw: Target, word: Bytes, s: Bytes, leads: seq<Lead>, k: nat)
    requires Within(s, leads) && k < |leads|
    ensures LegacyLinks(bw, word, s, leads)[k] ==
      Link(Matched(bw, word, leads[..k + 1]) > 0, bw(leads[k]), TextOf(s, leads[k]))
    decreases |leads|
  {
    var init := leads[..|leads| - 1];
    if k < |leads| - 1 {
      assert forall n :: 0 <= n < |init| ==> init[n] == leads[n];
      LegacyLinksAt(bw, word, s, init, k);
      assert init[..k + 1] == leads[..k + 1];
    } else {
      assert leads[..k + 1] == leads;
    }
  }

  /**
   * A link is bold exactly when its position starts inside the span of the
   * word found at the last position whose `bword` is the word, counting
   * positions by `byte`.
   */
  lemma LegacyBoldIsHeadwordSpan(bw: Target, word: Bytes, s: Bytes, leads: seq<Lead>, k: nat)
    requires Within(s, leads) && k < |leads|
    ensures LegacyLinks(bw, word, s, leads)[k].headword <==>
      Headword.Intended(|word|, LegacySteps(bw, word, leads[..k + 1]))
  {
    LegacyLinksAt(bw, word, s, leads, k);
    CounterAfterIsLegacyCounter(bw, word, leads[..k + 1]);
    Headword.LegacyRuleIsIntended(|word|, LegacySteps(bw, word, leads[..k + 1]));
  }

  /**
   * On a sentence without bytes 0xF8..0xFF, gd-marisa shows one link per
   * codepoint of `iter_unicode_chars`, with that codepoint as its text, and
   * each link's target is the longest key that starts there (or the
   * codepoint itself when none does).
   */
  lemma LegacyLinksShowCodepoints(d: Dictionary, word: Bytes, s: Bytes, byte0: nat, k: nat)
    requires NoBadBytes(s)
    ensures IterUnicodeChars(s).Ok?
    ensures |LegacyLinks(GdMarisaTarget(d, s), word, s, LeadsUpTo(s, byte0, |s|))| == |IterUnicodeChars(s).value|
    ensures k < |IterUnicodeChars(s).value| ==>
      var v := IterUnicodeChars(s).value[k];
      var link := LegacyLinks(GdMarisaTarget(d, s), word, s, LeadsUpTo(s, byte0, |s|))[k];
      link.text == v.ch && v.idx < |s| &&
      link.bword == Segmenter.LongestMatch(d, s[v.idx..], ByteLen(s[v.idx]))
  {
    var leads := LeadsUpTo(s, byte0, |s|);
    LeadsAreUnicodeChars(s, byte0);
    if k < |leads| {
      var l := leads[k];
      LeadLenOfLead(s, byte0, |s|, k);
      LegacyLinksAt(GdMarisaTarget(d, s), word, s, leads, k);
      assert Views(s, leads)[k] == ViewOf(s, l);
    }
  }

  /** The length recorded for a position is the classifier's length of the byte there, unless that byte is 0xF8..0xFF. */
  lemma {:induction false} LeadLenOfLead(s: Bytes, byte0: nat, n: nat, k: nat)
    requires n <= |s| && k < |LeadsUpTo(s, byte0, n)|
    ensures var l := LeadsUpTo(s, byte0, n)[k];
      !IsContinuation(s[l.at]) && (s[l.at] < 0xF8 ==> l.len == ByteLen(s[l.at]))
    decreases n
  {
    var leads := LeadsUpTo(s, byte0, n - 1);
    if k < |leads| {
      LeadLenOfLead(s, byte0, n - 1, k);
    }
  }

  // ------------------------------------------------------ gd-marisa alternatives

  /** The keys of `ks` before the first one of length `n`. */
  function TakeShorter(ks: seq<Bytes>, n: nat): (r: seq<Bytes>)
    ensures |r| <= |ks| && r == ks[..|r|]
  {
    if ks == [] || |ks[0]| == n then [] else [ks[0]] + TakeShorter(ks[1..], n)
  }

  /**
   * The loop that lists the keys that are prefixes of the word: it prints
   * every key the search reports until one has the word's length.
   */
  method LegacyAlternatives(d: Dictionary, word: Bytes) returns (shown: seq<Bytes>)
    ensures shown == TakeShorter(Segmenter.Hits(d, word), |word|)
  {
    var hits := Segmenter.Hits(d, word);
    var i := 0;
    while i < |hits| && |hits[i]| != |word|
      invariant i <= |hits|
      invariant forall m :: 0 <= m < i ==> |hits[m]| != |word|
    {
      i := i + 1;
    }
    TakeShorterStops(hits, |word|, i);
    shown := hits[..i];
  }

  lemma {:induction false} TakeShorterStops(ks: seq<Bytes>, n: nat, i: nat)
    requires i <= |ks| && (i == |ks| || |ks[i]| == n)
    requires forall m :: 0 <= m < i ==> |ks[m]| != n
    ensures TakeShorter(ks, n) == ks[..i]
    decreases i
  {
    if i > 0 {
      assert forall m :: 0 <= m < i - 1 ==> ks[1..][m] == ks[m + 1];
      TakeShorterStops(ks[1..], n, i - 1);
      assert ks[..i] == [ks[0]] + ks[1..][..i - 1];
    }
  }

  /**
   * The listed keys are exactly the keys that are prefixes of the word (up
   * to its first NUL) and shorter than it, shortest first: the key that is
   * the word itself is the only one the loop stops at.
   */
  lemma LegacyAlternativesAreShorterKeys(d: Dictionary, word: Bytes)
    ensures var shown := TakeShorter(Segmenter.Hits(d, word), |word|);
      (forall k :: k in shown <==> k in d && k <= CStr(word) && |k| < |word|) &&
      (forall a, b :: 0 <= a < b < |shown| ==> |shown[a]| < |shown[b]|)
  {
    var hits := Segmenter.Hits(d, word);
    CommonPrefixSearchReports(d, CStr(word));
    assert forall m :: 0 <= m < |hits| ==> |hits[m]| <= |word|;
    TakeShorterKeepsShorter(hits, |word|);
    forall k ensures k in hits <==> k in d && k <= CStr(word) {
      ReportedIffPrefixKey(d, CStr(word), k);
    }
  }

  /** In a sequence of strictly growing lengths up to `n`, the keys before the one of length `n` are those shorter than `n`. */
  lemma TakeShorterKeepsShorter(ks: seq<Bytes>, n: nat)
    requires forall a, b :: 0 <= a < b < |ks| ==> |ks[a]| < |ks[b]|
    requires forall m :: 0 <= m < |ks| ==> |ks[m]| <= n
    ensures var shown := TakeShorter(ks, n);
      (forall k :: k in shown <==> k in ks && |k| < n) &&
      (forall a, b :: 0 <= a < b < |shown| ==> |shown[a]| < |shown[b]|)
  {
    var shown := TakeShorter(ks, n);
    var i := |shown|;
    TakeShorterEnds(ks, n);
    forall k ensures k in shown <==> k in ks && |k| < n {
      if k in ks && |k| < n {
        var m :| 0 <= m < |ks| && ks[m] == k;
        assert k == shown[m];
      }
      if k in shown {
        var m :| 0 <= m < i && shown[m] == k;
        assert ks[m] == k;
      }
    }
  }

  lemma {:induction false} TakeShorterEnds(ks: seq<Bytes>, n: nat)
    ensures var i := |TakeShorter(ks, n)|;
      (i == |ks| || |ks[i]| == n) && forall m :: 0 <= m < i ==> |ks[m]| != n
    decreases |ks|
  {
    if ks != [] && |ks[0]| != n {
      TakeShorterEnds(ks[1..], n);
      var i := |TakeShorter(ks, n)|;
      assert forall m :: 1 <= m < i ==> ks[m] == ks[1..][m - 1];
    }
  }

  // ------------------------------------------------------------- gd-marisa main

  const DefaultDicPath: Bytes := Ascii("/usr/share/gd-tools/words.dic")

  /** What one run of gd-marisa ends with. */
  datatype GdMarisaRun =
    | GdMarisaUsage
    | GdMarisaNoDictionary(path: Bytes)
    | GdMarisaPage(links: seq<Link>, alternatives: seq<Bytes>)

  /** The exit status: 1 for the usage message and for a missing dictionary, 0 otherwise. */
  function ExitStatus(r: GdMarisaRun): nat {
    if r.GdMarisaPage? then 0 else 1
  }

  /** The dictionary path: the third argument when there is one, else the installed word list. */
  function DictPath(argv: seq<Bytes>): (path: Bytes)
    requires |argv| >= 3
    ensures |argv| > 3 ==> path == argv[3]
    ensures |argv| == 3 ==> path == DefaultDicPath
  {
    if |argv| > 3 then argv[3] else DefaultDicPath
  }

  /**
   * `main` of gd-marisa over `argv` (program name first); `files` maps the
   * paths of the files that exist to the tries they hold.
   */
  method GdMarisaMain(argv: seq<Bytes>, files: map<Bytes, Dictionary>, byte0: nat) returns (r: GdMarisaRun)
    ensures |argv| < 3 ==> r == GdMarisaUsage
    ensures |argv| >= 3 && DictPath(argv) !in files ==> r == GdMarisaNoDictionary(DictPath(argv))
    ensures |argv| >= 3 && DictPath(argv) in files ==>
      var d := files[DictPath(argv)];
      r == GdMarisaPage(LegacyLinks(GdMarisaTarget(d, argv[2]), argv[1], argv[2], LeadsUpTo(argv[2], byte0, |argv[2]|)),
                        TakeShorter(Segmenter.Hits(d, argv[1]), |argv[1]|))
    ensures ExitStatus(r) == 0 <==> |argv| >= 3 && DictPath(argv) in files
  {
    if |argv| < 3 {
      return GdMarisaUsage;
    }
    var path := DictPath(argv);
    if path !in files {
      return GdMarisaNoDictionary(path);
    }
    var d := files[path];
    var links := GdMarisaLinks(d, argv[1], argv[2], byte0);
    var shown := LegacyAlternatives(d, argv[1]);
    r := GdMarisaPage(links, shown);
  }

  // ---------------------------------------------------------------- createlinks

  /**
   * `search` of createlinks: the query is the whole suffix (no cut at a NUL)
   * and the fallback is three bytes.
   */
  function LinkTarget(d: Dictionary, q: Bytes): Bytes {
    var hits := CommonPrefixSearch(d, q);
    if hits == [] then Substr(q, 0, 3) else Substr(q, 0, |hits[|hits| - 1]|)
  }

  /**
   * The target is a prefix of the suffix: the longest key that is a prefix
   * of it, NULs included, or its first three bytes when there is none.
   */
  lemma LinkTargetIsLongest(d: Dictionary, q: Bytes)
    ensures LinkTarget(d, q) <= q
    ensures CommonPrefixSearch(d, q) == [] ==> LinkTarget(d, q) == Substr(q, 0, 3)
    ensures CommonPrefixSearch(d, q) != [] ==> var r := LinkTarget(d, q);
      r in d && forall k :: k in d && k <= q ==> |k| <= |r|
  {
    var hits := CommonPrefixSearch(d, q);
    CommonPrefixSearchReports(d, q);
    if hits != [] {
      var k := hits[|hits| - 1];
      assert k in d && k <= q;
      assert q[..|k|] == k;
      forall k' | k' in d && k' <= q ensures |k'| <= |k| {
        LastReportedIsLongest(d, q, k');
      }
    }
  }

  /** One link of createlinks: its `bword:` target and its text. */
  datatype Anchor = Anchor(target: Bytes, text: Bytes)

  /** `search(gdsearch.substr(i))` of createlinks. */
  function CreateLinksTarget(d: Dictionary, s: Bytes): Target {
    (l: Lead) => LinkTarget(d, Suffix(s, l.at))
  }

  /** The links of the positions `leads`: each links to its target and shows `substr(i, byte)`. */
  function Anchors(bw: Target, s: Bytes, leads: seq<Lead>): (r: seq<Anchor>)
    requires Within(s, leads)
    ensures |r| == |leads|
  {
    if leads == [] then []
    else
      var l := leads[|leads| - 1];
      Anchors(bw, s, leads[..|leads| - 1]) + [Anchor(bw(l), TextOf(s, l))]
  }

  lemma {:induction false} AnchorsAt(bw: Target, s: Bytes, leads: seq<Lead>, k: nat)
    requires Within(s, leads) && k < |leads|
    ensures Anchors(bw, s, leads)[k] == Anchor(bw(leads[k]), TextOf(s, leads[k]))
    decreases |leads|
  {
    var init := leads[..|leads| - 1];
    if k < |leads| - 1 {
      assert init[k] == leads[k];
      AnchorsAt(bw, s, init, k);
    }
  }

  /** The sentence loop of createlinks: the same walk as gd-marisa, without a highlight. */
  method CreateLinks(d: Dictionary, s: Bytes, byte0: nat) returns (anchors: seq<Anchor>)
    ensures anchors == Anchors(CreateLinksTarget(d, s), s, LeadsUpTo(s, byte0, |s|))
  {
    ghost var leads: seq<Lead> := [];
    var byte := byte0;
    anchors := [];
    for i := 0 to |s|
      invariant leads == LeadsUpTo(s, byte0, i) && Within(s, leads)
      invariant byte == Stale(leads, byte0)
      invariant anchors == Anchors(CreateLinksTarget(d, s), s, leads)
    {
      var lead := ClassifyByte(s[i], byte);
      if lead.Some? {
        byte := lead.value;
        var target := LinkTarget(d, s[i..]);
        leads := CreateLinksStep(d, s, byte0, i, lead, leads, target);
        anchors := anchors + [Anchor(target, Substr(s, i, byte))];
      } else {
        leads := CreateLinksStep(d, s, byte0, i, lead, leads, []);
      }
    }
  }

  /** One byte more of createlinks: the positions after it and, at a lead byte with its target given, the new link. */
  lemma CreateLinksStep(d: Dictionary, s: Bytes, byte0: nat, i: nat, lead: Option<nat>, leads: seq<Lead>, target: Bytes)
      returns (next: seq<Lead>)
    requires i < |s| && leads == LeadsUpTo(s, byte0, i)
    requires lead == LeadLen(s[i], Stale(leads, byte0))
    requires lead.Some? ==> target == LinkTarget(d, s[i..])
    ensures next == LeadsUpTo(s, byte0, i + 1) && Within(s, leads) && Within(s, next)
    ensures Stale(next, byte0) == if lead.Some? then lead.value else Stale(leads, byte0)
    ensures Anchors(CreateLinksTarget(d, s), s, next) ==
      if lead.Some? then Anchors(CreateLinksTarget(d, s), s, leads) + [Anchor(target, Substr(s, i, lead.value))]
      else Anchors(CreateLinksTarget(d, s), s, leads)
  {
    next := if lead.Some? then leads + [Lead(i, lead.value)] else leads;
    LeadsUpToNext(s, byte0, i, lead, leads, next);
    if lead.Some? {
      AnchorsSnoc(CreateLinksTarget(d, s), s, leads, Lead(i, lead.value));
    }
  }

  lemma AnchorsSnoc(bw: Target, s: Bytes, leads: seq<Lead>, l: Lead)
    requires Within(s, leads) && l.at < |s|
    ensures Within(s, leads + [l])
    ensures Anchors(bw, s, leads + [l]) == Anchors(bw, s, leads) + [Anchor(bw(l), TextOf(s, l))]
  {
    var ls := leads + [l];
    assert ls[..|ls| - 1] == leads;
  }

  /**
   * On a sentence without bytes 0xF8..0xFF, createlinks shows one link per
   * codepoint of `iter_unicode_chars`, in order, with that codepoint as its
   * text.
   */
  lemma AnchorsShowCodepoints(d: Dictionary, s: Bytes, byte0: nat)
    requires NoBadBytes(s)
    ensures IterUnicodeChars(s).Ok?
    ensures var vs := IterUnicodeChars(s).value;
      var anchors := Anchors(CreateLinksTarget(d, s), s, LeadsUpTo(s, byte0, |s|));
      |anchors| == |vs| && forall k :: 0 <= k < |vs| ==> anchors[k].text == vs[k].ch
  {
    var leads := LeadsUpTo(s, byte0, |s|);
    LeadsAreUnicodeChars(s, byte0);
    var vs := IterUnicodeChars(s).value;
    var anchors := Anchors(CreateLinksTarget(d, s), s, leads);
    forall k | 0 <= k < |vs| ensures anchors[k].text == vs[k].ch {
      AnchorsAt(CreateLinksTarget(d, s), s, leads, k);
      assert vs[k] == ViewOf(s, leads[k]);
    }
  }

  /** What one run of createlinks ends with; a missing `words.dic` makes the trie's `load` throw. */
  datatype CreateLinksRun = CreateLinksUsage | CreateLinksLoadFailed | CreateLinksPage(anchors: seq<Anchor>)

  /**
   * `main` of createlinks: the word is read but not used; the trie always
   * comes from `words.dic` in the working directory, given here as `dic`.
   */
  method CreateLinksMain(argv: seq<Bytes>, dic: Option<Dictionary>, byte0: nat) returns (r: CreateLinksRun)
    ensures |argv| < 3 ==> r == CreateLinksUsage
    ensures |argv| >= 3 && dic.None? ==> r == CreateLinksLoadFailed
    ensures |argv| >= 3 && dic.Some? ==>
      r == CreateLinksPage(Anchors(CreateLinksTarget(dic.value, argv[2]), argv[2], LeadsUpTo(argv[2], byte0, |argv[2]|)))
  {
    if |argv| < 3 {
      return CreateLinksUsage;
    }
    if dic.None? {
      return CreateLinksLoadFailed;
    }
    var anchors := CreateLinks(dic.value, argv[2], byte0);
    r := CreateLinksPage(anchors);
  }
}
