/**
 * The deinflecting segmenter of src/marisa_split.cpp. It walks the sentence
 * like the plain one, but at each position it deinflects every prefix of a
 * 60-byte window, in the three scripts, and collects the word-list keys that
 * are prefixes of the resulting dictionary forms. The deinflector, the
 * half-width folding and the image the hit set orders by are not part of this
 * model; they are parameters.
 */
module SplitSegmenter {
  import opened Wrappers
  import opened ByteStrings
  import opened Util
  import opened Utf8Walk
  import opened KanaConv
  import opened PrefixDict
  import JpSets
  import opened LinkWalk
  import Segmenter

  /** rdricpp's `deinflect`: the `term`s of the dictionary forms a string may inflect. */
  type Deinflector = Bytes -> seq<Bytes>

  /** `half_to_full`: the string with half-width characters folded to full width. */
  type Folding = Bytes -> Bytes

  /** `cmp_len`: `a` orders before `b` when it is strictly shorter. */
  function CmpLen(a: Bytes, b: Bytes): (r: bool)
    ensures r <==> |a| < |b|
  {
    |a| < |b|
  }

  /** `ks[i]` is `r`, and every element before it is strictly shorter. */
  predicate FirstOfLength(ks: seq<Bytes>, r: Bytes, i: int) {
    0 <= i < |ks| && ks[i] == r && forall j :: 0 <= j < i ==> |ks[j]| < |r|
  }

  /**
   * `std::ranges::max(headwords, cmp_len)`: an element of greatest length, and
   * of those the first in iteration order.
   */
  function FirstLongestOf(ks: seq<Bytes>): (r: Bytes)
    requires ks != []
    ensures r in ks && forall y :: y in ks ==> |y| <= |r|
    ensures exists i :: FirstOfLength(ks, r, i)
    decreases |ks|
  {
    if |ks| == 1 then
      assert FirstOfLength(ks, ks[0], 0);
      ks[0]
    else
      var init := ks[..|ks| - 1];
      var best := FirstLongestOf(init);
      var r := if CmpLen(best, ks[|ks| - 1]) then ks[|ks| - 1] else best;
      FirstLongestStep(ks, init, best, r);
      r
  }

  lemma FirstLongestStep(ks: seq<Bytes>, init: seq<Bytes>, best: Bytes, r: Bytes)
    requires |ks| > 1 && init == ks[..|ks| - 1]
    requires best in init && forall y :: y in init ==> |y| <= |best|
    requires exists i :: FirstOfLength(init, best, i)
    requires r == if |best| < |ks[|ks| - 1]| then ks[|ks| - 1] else best
    ensures r in ks && forall y :: y in ks ==> |y| <= |r|
    ensures exists i :: FirstOfLength(ks, r, i)
  {
    assert ks == init + [ks[|ks| - 1]];
    if |best| < |ks[|ks| - 1]| {
      forall j | 0 <= j < |ks| - 1 ensures |ks[j]| < |r| {
        assert ks[j] == init[j];
      }
      assert FirstOfLength(ks, r, |ks| - 1);
    } else {
      var i :| FirstOfLength(init, best, i);
      assert FirstOfLength(ks, r, i);
    }
  }

  // --------------------------------------------- find_deinflections_starting_with

  /** One entry of `find_deinflections_starting_with`: a prefix and its deinflections. */
  datatype Deinflected = Deinflected(from: Bytes, to: seq<Bytes>)

  /** The entry of the prefix of `s` that ends with the codepoint `v`. */
  function GroupAt(deinflect: Deinflector, s: Bytes, v: CharView): Deinflected {
    var from := Substr(s, 0, v.idx + |v.ch|);
    Deinflected(from, deinflect(from))
  }

  /** The entries of the codepoints `vs`, the last codepoint's first. */
  function GroupsOf(deinflect: Deinflector, s: Bytes, vs: seq<CharView>): (r: seq<Deinflected>)
    ensures |r| == |vs|
  {
    if vs == [] then [] else GroupsOf(deinflect, s, vs[1..]) + [GroupAt(deinflect, s, vs[0])]
  }

  /** Entry `n` is the entry of the `n`-th codepoint from the end. */
  lemma {:induction false} GroupsAt(deinflect: Deinflector, s: Bytes, vs: seq<CharView>, n: nat)
    requires n < |vs|
    ensures GroupsOf(deinflect, s, vs)[n] == GroupAt(deinflect, s, vs[|vs| - 1 - n])
    decreases |vs|
  {
    var rest := GroupsOf(deinflect, s, vs[1..]);
    if n < |rest| {
      GroupsAt(deinflect, s, vs[1..], n);
      assert vs[1..][|vs| - 2 - n] == vs[|vs| - 1 - n];
    }
  }

  /** What `find_deinflections_starting_with` returns, or the walk's failure. */
  function DeinflectionsOf(deinflect: Deinflector, s: Bytes): Result<seq<Deinflected>, Failure> {
    match IterUnicodeChars(s)
    case Err(e) => Err(e)
    case Ok(vs) => Ok(GroupsOf(deinflect, s, vs))
  }

  /** The reversed loop: from the whole string towards the first codepoint, `emplace_back` each entry. */
  method FindDeinflectionsStartingWith(deinflect: Deinflector, searchStr: Bytes)
    returns (r: Result<seq<Deinflected>, Failure>)
    ensures r == DeinflectionsOf(deinflect, searchStr)
  {
    var chars := IterUnicodeChars(searchStr);
    if chars.Err? {
      return Err(chars.error);
    }
    var vs := chars.value;
    var hits := [];
    var i := |vs|;
    while i > 0
      invariant 0 <= i <= |vs|
      invariant hits == GroupsOf(deinflect, searchStr, vs[i..])
    {
      i := i - 1;
      var v := vs[i];
      var from := Substr(searchStr, 0, v.idx + |v.ch|);
      assert vs[i..][1..] == vs[i + 1..];
      hits := hits + [Deinflected(from, deinflect(from))];
    }
    return Ok(hits);
  }

  /**
   * For well-formed UTF-8 there is one entry per codepoint, and entry `n`
   * holds the codepoints but the last `n`: the whole string comes first and
   * every entry is shorter than the one before. Each entry carries the
   * deinflections of its prefix.
   */
  lemma DeinflectionsLongestFirst(deinflect: Deinflector, s: Bytes)
    requires WellFormed(s)
    ensures IterUnicodeChars(s).Ok? && DeinflectionsOf(deinflect, s).Ok?
    ensures var gs := DeinflectionsOf(deinflect, s).value;
      var cs := ViewChars(IterUnicodeChars(s).value);
      |gs| == |cs| &&
      (forall n :: 0 <= n < |gs| ==> gs[n].from == Join(cs[..|cs| - n]) && gs[n].to == deinflect(gs[n].from)) &&
      (forall n :: 0 < n < |gs| ==> |gs[n].from| < |gs[n - 1].from|) &&
      (gs != [] ==> gs[0].from == s)
  {
    var cs := WellFormedSplit(s);
    IterOffsetsOfJoin(cs, 0);
    IterOfJoin(cs, 0);
    var vs := IterUnicodeChars(s).value;
    assert ViewChars(vs) == cs;
    var gs := DeinflectionsOf(deinflect, s).value;
    forall n | 0 <= n < |gs|
      ensures gs[n].from == Join(cs[..|cs| - n]) && gs[n].to == deinflect(gs[n].from)
      ensures |gs[n].from| == |Join(cs[..|cs| - 1 - n])| + |cs[|cs| - 1 - n]|
    {
      var m := |cs| - 1 - n;
      assert vs[m].ch == cs[m] && vs[m].idx == |Join(cs[..m])|;
      GroupsAt(deinflect, s, vs, n);
      EntryOfWellFormed(deinflect, s, cs, vs[m], m);
      assert cs[..m + 1] == cs[..|cs| - n];
    }
    EntriesShrink(gs, cs);
    if gs != [] {
      assert cs[..|cs| - 0] == cs;
    }
  }

  lemma EntriesShrink(gs: seq<Deinflected>, cs: seq<Bytes>)
    requires |gs| == |cs|
    requires forall n :: 0 <= n < |gs| ==> gs[n].from == Join(cs[..|cs| - n])
    requires forall n :: 0 <= n < |gs| ==> |gs[n].from| == |Join(cs[..|cs| - 1 - n])| + |cs[|cs| - 1 - n]|
    requires forall n :: 0 <= n < |cs| ==> WellFormedChar(cs[n])
    ensures forall n :: 0 < n < |gs| ==> |gs[n].from| < |gs[n - 1].from|
  {
    forall n | 0 < n < |gs| ensures |gs[n].from| < |gs[n - 1].from| {
      var m := |cs| - n;
      assert |gs[n - 1].from| == |Join(cs[..m])| + |cs[m]|;
      assert gs[n].from == Join(cs[..m]);
    }
  }

  lemma EntryOfWellFormed(deinflect: Deinflector, s: Bytes, cs: seq<Bytes>, v: CharView, m: nat)
    requires Join(cs) == s && m < |cs|
    requires v.ch == cs[m] && v.idx == |Join(cs[..m])|
    ensures var g := GroupAt(deinflect, s, v);
      g.from == Join(cs[..m + 1]) && g.to == deinflect(g.from) && |g.from| == |Join(cs[..m])| + |cs[m]|
  {
    PrefixThroughCodepoint(cs, m);
  }

  /** The prefix ending with the `m`-th sequence is the first `m + 1` sequences. */
  lemma PrefixThroughCodepoint(cs: seq<Bytes>, m: nat)
    requires m < |cs|
    ensures |Join(cs[..m])| + |cs[m]| <= |Join(cs)|
    ensures Substr(Join(cs), 0, |Join(cs[..m])| + |cs[m]|) == Join(cs[..m + 1])
  {
    JoinAppend(cs[..m], [cs[m]]);
    assert cs[..m] + [cs[m]] == cs[..m + 1];
    assert Join([cs[m]]) == cs[m] + Join([]);
    JoinAppend(cs[..m + 1], cs[m + 1..]);
    assert cs[..m + 1] + cs[m + 1..] == cs;
  }

  /** Every entry is a non-empty prefix of the string with the deinflections of that prefix. */
  lemma EntriesArePrefixes(deinflect: Deinflector, s: Bytes, g: Deinflected)
    requires DeinflectionsOf(deinflect, s).Ok? && g in DeinflectionsOf(deinflect, s).value
    ensures g.from <= s && g.from != [] && g.to == deinflect(g.from)
  {
    var vs := IterUnicodeChars(s).value;
    IterViewsAt(s, 0);
    var gs := DeinflectionsOf(deinflect, s).value;
    var n :| 0 <= n < |gs| && gs[n] == g;
    GroupsAt(deinflect, s, vs, n);
    assert IsViewAt(s, 0, vs[|vs| - 1 - n]);
  }

  // ---------------------------------------------- find_keywords_starting_with

  /** The deinflections of a list of entries, flattened in order. */
  function Terms(gs: seq<Deinflected>): seq<Bytes> {
    if gs == [] then [] else gs[0].to + Terms(gs[1..])
  }

  lemma {:induction false} TermsAppend(a: seq<Deinflected>, b: seq<Deinflected>)
    ensures Terms(a + b) == Terms(a) + Terms(b)
    decreases |a|
  {
    if a == [] {
      assert a + b == b;
    } else {
      assert (a + b)[1..] == a[1..] + b;
      TermsAppend(a[1..], b);
    }
  }

  /** A deinflection is among the terms exactly when one of the entries carries it. */
  lemma {:induction false} TermsMembers(gs: seq<Deinflected>, t: Bytes)
    ensures t in Terms(gs) <==> exists g :: g in gs && t in g.to
    decreases |gs|
  {
    if gs != [] {
      TermsMembers(gs[1..], t);
      if exists g :: g in gs && t in g.to {
        var g :| g in gs && t in g.to;
        if g != gs[0] {
          assert g in gs[1..];
        }
      }
    }
  }

  /** `gs` in front of a result, or the failure. */
  function Prefixed(gs: seq<Deinflected>, r: Result<seq<Deinflected>, Failure>): Result<seq<Deinflected>, Failure> {
    match r
    case Err(e) => Err(e)
    case Ok(rest) => Ok(gs + rest)
  }

  /** The entries of every query in turn, or the first failure. */
  function VariantGroups(deinflect: Deinflector, qs: seq<Bytes>): Result<seq<Deinflected>, Failure>
    decreases |qs|
  {
    if qs == [] then Ok([])
    else
      match DeinflectionsOf(deinflect, qs[0])
      case Err(e) => Err(e)
      case Ok(gs) => Prefixed(gs, VariantGroups(deinflect, qs[1..]))
  }

  /** `t` is a deinflection of a prefix of one of the queries. */
  ghost predicate TermOfVariant(deinflect: Deinflector, qs: seq<Bytes>, t: Bytes) {
    exists n, p :: 0 <= n < |qs| && p <= qs[n] && p != [] && t in deinflect(p)
  }

  /** `t` is a deinflection carried by an entry of one of the queries. */
  ghost predicate TermOfEntry(deinflect: Deinflector, qs: seq<Bytes>, t: Bytes) {
    exists n, g :: 0 <= n < |qs| && DeinflectionsOf(deinflect, qs[n]).Ok? &&
      g in DeinflectionsOf(deinflect, qs[n]).value && t in g.to
  }

  /**
   * What `find_keywords_starting_with` returns: the set after emplacing every
   * key reported for every deinflection of every prefix of the three scripts.
   */
  function SplitKeywordsOf(d: Dictionary, deinflect: Deinflector, key: JpSets.Image, s: Bytes)
    : Result<seq<Bytes>, Failure>
  {
    match Segmenter.KeywordVariants(s)
    case Err(e) => Err(e)
    case Ok(qs) =>
      match VariantGroups(deinflect, qs)
      case Err(e) => Err(e)
      case Ok(gs) => Ok(JpSets.InsertAll([], Segmenter.AllHits(d, Terms(gs)), key))
  }

  method FindKeywordsStartingWith(d: Dictionary, deinflect: Deinflector, key: JpSets.Image, searchStr: Bytes)
    returns (r: Result<seq<Bytes>, Failure>)
    ensures r == SplitKeywordsOf(d, deinflect, key, searchStr)
  {
    var h2k := HiraganaToKatakana(searchStr);
    if h2k.Err? {
      return Err(h2k.error);
    }
    var k2h := KatakanaToHiragana(searchStr);
    if k2h.Err? {
      return Err(k2h.error);
    }
    var variants := [searchStr, h2k.value, k2h.value];
    var deinflections := DeinflectionsOfVariants(deinflect, variants);
    if deinflections.Err? {
      return Err(deinflections.error);
    }
    var results := Segmenter.EmplaceHits(d, deinflections.value, key);
    return Ok(results);
  }

  /** The flattened view over the variants: each variant's entries, each entry's deinflections. */
  method DeinflectionsOfVariants(deinflect: Deinflector, variants: seq<Bytes>)
    returns (r: Result<seq<Bytes>, Failure>)
    ensures VariantGroups(deinflect, variants).Err? ==> r == Err(VariantGroups(deinflect, variants).error)
    ensures VariantGroups(deinflect, variants).Ok? ==> r == Ok(Terms(VariantGroups(deinflect, variants).value))
  {
    var terms := [];
    ghost var gs := [];
    assert variants[0..] == variants;
    assert Prefixed(gs, VariantGroups(deinflect, variants)) == VariantGroups(deinflect, variants) by {
      if VariantGroups(deinflect, variants).Ok? {
        assert [] + VariantGroups(deinflect, variants).value == VariantGroups(deinflect, variants).value;
      }
    }
    for v := 0 to |variants|
      invariant VariantGroups(deinflect, variants) == Prefixed(gs, VariantGroups(deinflect, variants[v..]))
      invariant terms == Terms(gs)
    {
      var groups := FindDeinflectionsStartingWith(deinflect, variants[v]);
      assert variants[v..][0] == variants[v] && variants[v..][1..] == variants[v + 1..];
      if groups.Err? {
        return Err(groups.error);
      }
      PrefixedTwice(gs, groups.value, VariantGroups(deinflect, variants[v + 1..]));
      TermsAppend(gs, groups.value);
      terms := terms + Terms(groups.value);
      gs := gs + groups.value;
    }
    assert variants[|variants|..] == [] && gs + [] == gs;
    return Ok(terms);
  }

  lemma PrefixedTwice(a: seq<Deinflected>, b: seq<Deinflected>, r: Result<seq<Deinflected>, Failure>)
    ensures Prefixed(a, Prefixed(b, r)) == Prefixed(a + b, r)
  {
    if r.Ok? {
      assert a + (b + r.value) == (a + b) + r.value;
    }
  }

  /** An entry of the queries' entries belongs to one query. */
  lemma {:induction false} VariantGroupsMembers(deinflect: Deinflector, qs: seq<Bytes>, g: Deinflected)
    requires VariantGroups(deinflect, qs).Ok? && g in VariantGroups(deinflect, qs).value
    ensures exists n :: 0 <= n < |qs| && DeinflectionsOf(deinflect, qs[n]).Ok? && g in DeinflectionsOf(deinflect, qs[n]).value
    decreases |qs|
  {
    var gs0 := DeinflectionsOf(deinflect, qs[0]).value;
    var rest := VariantGroups(deinflect, qs[1..]).value;
    assert VariantGroups(deinflect, qs).value == gs0 + rest;
    if g !in gs0 {
      VariantGroupsMembers(deinflect, qs[1..], g);
      var n :| 0 <= n < |qs[1..]| && DeinflectionsOf(deinflect, qs[1..][n]).Ok? && g in DeinflectionsOf(deinflect, qs[1..][n]).value;
      assert qs[1..][n] == qs[n + 1];
    }
  }

  /** Every entry of every query is among the queries' entries. */
  lemma {:induction false} VariantGroupsComplete(deinflect: Deinflector, qs: seq<Bytes>, n: nat, g: Deinflected)
    requires VariantGroups(deinflect, qs).Ok? && n < |qs|
    requires DeinflectionsOf(deinflect, qs[n]).Ok? && g in DeinflectionsOf(deinflect, qs[n]).value
    ensures g in VariantGroups(deinflect, qs).value
    decreases |qs|
  {
    var gs0 := DeinflectionsOf(deinflect, qs[0]).value;
    var rest := VariantGroups(deinflect, qs[1..]).value;
    assert VariantGroups(deinflect, qs).value == gs0 + rest;
    if n > 0 {
      assert qs[1..][n - 1] == qs[n];
      VariantGroupsComplete(deinflect, qs[1..], n - 1, g);
    }
  }

  /** The queries' deinflections are deinflections of prefixes of the queries. */
  lemma TermsOfVariants(deinflect: Deinflector, qs: seq<Bytes>, t: Bytes)
    requires VariantGroups(deinflect, qs).Ok?
    requires t in Terms(VariantGroups(deinflect, qs).value)
    ensures TermOfVariant(deinflect, qs, t)
  {
    var gs := VariantGroups(deinflect, qs).value;
    TermsMembers(gs, t);
    var g :| g in gs && t in g.to;
    VariantGroupsMembers(deinflect, qs, g);
    var n :| 0 <= n < |qs| && DeinflectionsOf(deinflect, qs[n]).Ok? && g in DeinflectionsOf(deinflect, qs[n]).value;
    EntriesArePrefixes(deinflect, qs[n], g);
  }

  /** A deinflection of an entry of one of the queries is among the queries' deinflections. */
  lemma TermsOfEntries(deinflect: Deinflector, qs: seq<Bytes>, t: Bytes)
    requires VariantGroups(deinflect, qs).Ok? && TermOfEntry(deinflect, qs, t)
    ensures t in Terms(VariantGroups(deinflect, qs).value)
  {
    var n, g :| 0 <= n < |qs| && DeinflectionsOf(deinflect, qs[n]).Ok? &&
      g in DeinflectionsOf(deinflect, qs[n]).value && t in g.to;
    VariantGroupsComplete(deinflect, qs, n, g);
    TermsMembers(VariantGroups(deinflect, qs).value, t);
  }

  /** The walks of the queries succeed when none holds a byte in 0xF8..0xFF. */
  lemma {:induction false} VariantGroupsSucceed(deinflect: Deinflector, qs: seq<Bytes>)
    requires forall n :: 0 <= n < |qs| ==> NoBadBytes(qs[n])
    ensures VariantGroups(deinflect, qs).Ok?
    decreases |qs|
  {
    if qs != [] {
      IterSucceeds(qs[0], 0);
      assert forall n :: 0 <= n < |qs[1..]| ==> qs[1..][n] == qs[n + 1];
      VariantGroupsSucceed(deinflect, qs[1..]);
    }
  }

  /** `find_keywords_starting_with` fails exactly on a byte in 0xF8..0xFF. */
  lemma SplitKeywordsFailOnlyOnBadBytes(d: Dictionary, deinflect: Deinflector, key: JpSets.Image, s: Bytes)
    ensures SplitKeywordsOf(d, deinflect, key, s).Ok? <==> NoBadBytes(s)
  {
    ConvertSucceeds(HiraToKata(), s);
    if NoBadBytes(s) {
      Segmenter.OutputsHaveNoBadBytes(s);
      var qs := Segmenter.KeywordVariants(s).value;
      VariantGroupsSucceed(deinflect, qs);
    }
  }

  /**
   * The hit set is ordered by its image; each element is a word-list key that
   * is a prefix of a deinflection of a prefix of one of the three scripts; and
   * every key that is a prefix of a deinflection of an entry of one of the
   * scripts is represented by an element with its image.
   */
  lemma SplitKeywordsArePrefixKeys(d: Dictionary, deinflect: Deinflector, key: JpSets.Image, s: Bytes)
    requires SplitKeywordsOf(d, deinflect, key, s).Ok?
    ensures var ks := SplitKeywordsOf(d, deinflect, key, s).value;
      var qs := Segmenter.KeywordVariants(s).value;
      JpSets.Ordered(ks, key) &&
      (forall y :: y in ks ==> y in d && KeyOfTerm(deinflect, qs, y)) &&
      (forall t, k :: TermOfEntry(deinflect, qs, t) && k in d && k <= CStr(t) ==> JpSets.Holds(ks, k, key))
  {
    var qs := Segmenter.KeywordVariants(s).value;
    KeywordsOfQueries(d, deinflect, key, qs);
  }

  /** The hit set built from the deinflections of the prefixes of any queries. */
  lemma KeywordsOfQueries(d: Dictionary, deinflect: Deinflector, key: JpSets.Image, qs: seq<Bytes>)
    requires VariantGroups(deinflect, qs).Ok?
    ensures var ks := JpSets.InsertAll([], Segmenter.AllHits(d, Terms(VariantGroups(deinflect, qs).value)), key);
      JpSets.Ordered(ks, key) &&
      (forall y :: y in ks ==> y in d && KeyOfTerm(deinflect, qs, y)) &&
      (forall t, k :: TermOfEntry(deinflect, qs, t) && k in d && k <= CStr(t) ==> JpSets.Holds(ks, k, key))
  {
    var terms := Terms(VariantGroups(deinflect, qs).value);
    var ks := JpSets.InsertAll([], Segmenter.AllHits(d, terms), key);
    Segmenter.SetOfHits(d, terms, key);
    KeysComeFromTerms(d, deinflect, qs, terms, ks);
    EntryKeysHeld(d, deinflect, key, qs, terms, ks);
  }

  /** `y` is a prefix of a deinflection of a prefix of one of the queries. */
  ghost predicate KeyOfTerm(deinflect: Deinflector, qs: seq<Bytes>, y: Bytes) {
    exists t :: TermOfVariant(deinflect, qs, t) && y <= CStr(t)
  }

  lemma KeysComeFromTerms(d: Dictionary, deinflect: Deinflector, qs: seq<Bytes>, terms: seq<Bytes>, ks: seq<Bytes>)
    requires VariantGroups(deinflect, qs).Ok? && terms == Terms(VariantGroups(deinflect, qs).value)
    requires forall y :: y in ks ==> Segmenter.PrefixOfSome(d, terms, y)
    ensures forall y :: y in ks ==> y in d && KeyOfTerm(deinflect, qs, y)
  {
    forall y | y in ks ensures y in d && KeyOfTerm(deinflect, qs, y) {
      ElementFromTerm(d, deinflect, qs, terms, y);
    }
  }

  lemma EntryKeysHeld(d: Dictionary, deinflect: Deinflector, key: JpSets.Image, qs: seq<Bytes>, terms: seq<Bytes>,
                      ks: seq<Bytes>)
    requires VariantGroups(deinflect, qs).Ok? && terms == Terms(VariantGroups(deinflect, qs).value)
    requires forall k :: Segmenter.PrefixOfSome(d, terms, k) ==> JpSets.Holds(ks, k, key)
    ensures forall t, k :: TermOfEntry(deinflect, qs, t) && k in d && k <= CStr(t) ==> JpSets.Holds(ks, k, key)
  {
    forall t, k | TermOfEntry(deinflect, qs, t) && k in d && k <= CStr(t)
      ensures Segmenter.PrefixOfSome(d, terms, k)
    {
      TermsOfEntries(deinflect, qs, t);
      var m :| 0 <= m < |terms| && terms[m] == t;
    }
  }

  lemma ElementFromTerm(d: Dictionary, deinflect: Deinflector, qs: seq<Bytes>, terms: seq<Bytes>, y: Bytes)
    requires VariantGroups(deinflect, qs).Ok? && terms == Terms(VariantGroups(deinflect, qs).value)
    requires Segmenter.PrefixOfSome(d, terms, y)
    ensures y in d && KeyOfTerm(deinflect, qs, y)
  {
    var m :| 0 <= m < |terms| && y <= CStr(terms[m]);
    TermsOfVariants(deinflect, qs, terms[m]);
  }

  // ----------------------------------------------------------------- lookup_words

  /** `max_forward_search_len_bytes`: twenty three-byte codepoints. */
  const WindowLen: nat := 3 * 20

  /** One entry of an alternatives list: marked as the headword iff it is the word itself. */
  datatype Entry = Entry(headword: bool, word: Bytes)

  /** The page: the links, then one list per non-empty hit set. */
  datatype SplitPage = SplitPage(links: seq<Link>, alternatives: seq<seq<Entry>>)

  /**
   * The word is folded to full width before its whitespace is erased; the
   * sentence loses its whitespace, and then becomes the folded word when
   * nothing is left, or is folded itself otherwise.
   */
  function Normalised(p: Segmenter.MarisaParams, halfToFull: Folding): (q: Segmenter.MarisaParams)
    ensures q.pathToDic == p.pathToDic
    ensures q.word == EraseSpaces(halfToFull(p.word))
    ensures forall k :: 0 <= k < |q.word| ==> !IsSpace(q.word[k])
    ensures EraseSpaces(p.sentence) == [] ==> q.sentence == q.word
    ensures EraseSpaces(p.sentence) != [] ==> q.sentence == halfToFull(EraseSpaces(p.sentence))
  {
    var word := EraseSpaces(halfToFull(p.word));
    var sentence := EraseSpaces(p.sentence);
    Segmenter.MarisaParams(word, if sentence == [] then word else halfToFull(sentence), p.pathToDic)
  }

  /** The hit set of one position: the keywords of the 60-byte window from its offset. */
  function HitSetAt(d: Dictionary, deinflect: Deinflector, key: JpSets.Image, sentence: Bytes, v: CharView)
    : Result<seq<Bytes>, Failure>
  {
    match SubstrChecked(sentence, v.idx, WindowLen)
    case Err(e) => Err(e)
    case Ok(window) => SplitKeywordsOf(d, deinflect, key, window)
  }

  /** The `bword` of one position: the codepoint when the hit set is empty, else its first longest element. */
  function SplitBwordAt(d: Dictionary, deinflect: Deinflector, key: JpSets.Image, sentence: Bytes, v: CharView)
    : Result<Bytes, Failure>
  {
    match HitSetAt(d, deinflect, key, sentence, v)
    case Err(e) => Err(e)
    case Ok(ks) => Ok(if ks == [] then v.ch else FirstLongestOf(ks))
  }

  function SplitBwords(d: Dictionary, deinflect: Deinflector, key: JpSets.Image, sentence: Bytes): Lookup {
    v => SplitBwordAt(d, deinflect, key, sentence, v)
  }

  /** How the hit set of one position is found. */
  type HitLookup = CharView -> Result<seq<Bytes>, Failure>

  function SplitHits(d: Dictionary, deinflect: Deinflector, key: JpSets.Image, sentence: Bytes): HitLookup {
    v => HitSetAt(d, deinflect, key, sentence, v)
  }

  /** The hit sets of the positions `vs`, in order, or the first failure. */
  function HitSets(hs: HitLookup, vs: seq<CharView>): Result<seq<seq<Bytes>>, Failure>
  {
    if vs == [] then Ok([])
    else
      match HitSets(hs, vs[..|vs| - 1])
      case Err(e) => Err(e)
      case Ok(sets) =>
        match hs(vs[|vs| - 1])
        case Err(e) => Err(e)
        case Ok(ks) => Ok(sets + [ks])
  }

  /** A hit set as printed: each element, marked iff it is byte-equal to the word. */
  function Marked(ks: seq<Bytes>, word: Bytes): (r: seq<Entry>)
    ensures |r| == |ks|
    ensures forall i :: 0 <= i < |ks| ==> r[i].word == ks[i] && (r[i].headword <==> ks[i] == word)
  {
    seq(|ks|, i requires 0 <= i < |ks| => Entry(ks[i] == word, ks[i]))
  }

  /** The alternatives section: the marked form of every non-empty hit set, in order. */
  function Printed(sets: seq<seq<Bytes>>, word: Bytes): seq<seq<Entry>> {
    if sets == [] then []
    else
      var ks := sets[|sets| - 1];
      Printed(sets[..|sets| - 1], word) + (if ks == [] then [] else [Marked(ks, word)])
  }

  /** The walk and the hit sets of the same positions. */
  function WalkAndSets(d: Dictionary, deinflect: Deinflector, key: JpSets.Image, sentence: Bytes, word: Bytes,
                       vs: seq<CharView>): Result<(seq<Link>, seq<seq<Bytes>>), Failure>
  {
    match Walk(SplitBwords(d, deinflect, key, sentence), word, vs)
    case Err(e) => Err(e)
    case Ok((links, _)) =>
      match HitSets(SplitHits(d, deinflect, key, sentence), vs)
      case Err(e) => Err(e)
      case Ok(sets) => Ok((links, sets))
  }

  /**
   * What `lookup_words` of src/marisa_split.cpp produces for the params and the
   * word list at their path (None: no such file).
   */
  function SplitLookedUp(p: Segmenter.MarisaParams, dic: Option<Dictionary>, halfToFull: Folding,
                         deinflect: Deinflector, key: JpSets.Image): Result<SplitPage, Failure>
  {
    var q := Normalised(p, halfToFull);
    if dic.None? then Err(RuntimeError(DictionaryMissing(q.pathToDic)))
    else
      match IterUnicodeChars(q.sentence)
      case Err(e) => Err(e)
      case Ok(vs) =>
        match WalkAndSets(dic.value, deinflect, key, q.sentence, q.word, vs)
        case Err(e) => Err(e)
        case Ok((links, sets)) => Ok(SplitPage(links, Printed(sets, q.word)))
  }

  method SplitLookupWords(params: Segmenter.MarisaParams, dic: Option<Dictionary>, halfToFull: Folding,
                          deinflect: Deinflector, key: JpSets.Image) returns (r: Result<SplitPage, Failure>)
    ensures r == SplitLookedUp(params, dic, halfToFull, deinflect, key)
  {
    var word := halfToFull(params.word);
    word := EraseSpaces(word);
    var sentence := EraseSpaces(params.sentence);
    if sentence == [] {
      sentence := word;
    } else {
      sentence := halfToFull(sentence);
    }
    var raised := RaiseIf(dic.None?, DictionaryMissing(params.pathToDic));
    if raised.Err? {
      return Err(raised.error);
    }
    var d := dic.value;
    var chars := IterUnicodeChars(sentence);
    if chars.Err? {
      return Err(chars.error);
    }
    var walked := WalkSplitSentence(d, deinflect, key, sentence, word, chars.value);
    if walked.Err? {
      return Err(walked.error);
    }
    var (links, alternatives) := walked.value;
    var printed := PrintAlternatives(alternatives, word);
    return Ok(SplitPage(links, printed));
  }

  /** The loop over the codepoints: one link and one hit set per position. */
  method WalkSplitSentence(d: Dictionary, deinflect: Deinflector, key: JpSets.Image, sentence: Bytes, word: Bytes,
                           vs: seq<CharView>) returns (r: Result<(seq<Link>, seq<seq<Bytes>>), Failure>)
    ensures r == WalkAndSets(d, deinflect, key, sentence, word, vs)
  {
    var bw := SplitBwords(d, deinflect, key, sentence);
    var hs := SplitHits(d, deinflect, key, sentence);
    var links := [];
    var posInWord := 0;
    var alternatives := [];
    for n := 0 to |vs|
      invariant Walk(bw, word, vs[..n]) == Ok((links, posInWord))
      invariant HitSets(hs, vs[..n]) == Ok(alternatives)
    {
      var v := vs[n];
      assert vs[..n + 1][..n] == vs[..n] && vs[..n + 1][n] == v;
      var window := SubstrChecked(sentence, v.idx, WindowLen);
      if window.Err? {
        WalkStopsAt(bw, word, vs, n);
        return Err(window.error);
      }
      var headwords := FindKeywordsStartingWith(d, deinflect, key, window.value);
      if headwords.Err? {
        WalkStopsAt(bw, word, vs, n);
        return Err(headwords.error);
      }
      var bword := if headwords.value == [] then v.ch else FirstLongestOf(headwords.value);
      if word == bword {
        posInWord := |bword|;
      } else {
        posInWord := posInWord - |v.ch|;
      }
      links := links + [Link(posInWord > 0, bword, v.ch)];
      alternatives := alternatives + [headwords.value];
    }
    assert vs[..|vs|] == vs;
    return Ok((links, alternatives));
  }

  /** The alternatives loop: skip the empty hit sets, mark the word in the others. */
  method PrintAlternatives(alternatives: seq<seq<Bytes>>, word: Bytes) returns (printed: seq<seq<Entry>>)
    ensures printed == Printed(alternatives, word)
  {
    printed := [];
    for i := 0 to |alternatives|
      invariant printed == Printed(alternatives[..i], word)
    {
      assert alternatives[..i + 1][..i] == alternatives[..i];
      if |alternatives[i]| > 0 {
        printed := printed + [Marked(alternatives[i], word)];
      }
    }
    assert alternatives[..|alternatives|] == alternatives;
  }

  // ---------------------------------------------------------------- properties

  /** The word list is checked before anything else is looked at. */
  lemma SplitMissingDictionaryRaises(p: Segmenter.MarisaParams, halfToFull: Folding, deinflect: Deinflector,
                                     key: JpSets.Image)
    ensures SplitLookedUp(p, None, halfToFull, deinflect, key) == Err(RuntimeError(DictionaryMissing(p.pathToDic)))
  {
  }

  /** An empty sentence takes the word as folded once, not folded again. */
  lemma EmptySentenceTakesFoldedWord(p: Segmenter.MarisaParams, halfToFull: Folding)
    requires EraseSpaces(p.sentence) == []
    ensures Normalised(p, halfToFull).sentence == EraseSpaces(halfToFull(p.word))
  {
  }

  /**
   * The `bword` of a position is its codepoint when no key was found there;
   * otherwise it is the first longest element of the hit set, a word-list key
   * that is a prefix of a deinflection (so possibly a dictionary form that is
   * not in the sentence at all).
   */
  lemma BwordIsFirstLongestHit(d: Dictionary, deinflect: Deinflector, key: JpSets.Image, sentence: Bytes,
                               v: CharView)
    requires SplitBwordAt(d, deinflect, key, sentence, v).Ok?
    ensures HitSetAt(d, deinflect, key, sentence, v).Ok? && v.idx <= |sentence|
    ensures var ks := HitSetAt(d, deinflect, key, sentence, v).value;
      var b := SplitBwordAt(d, deinflect, key, sentence, v).value;
      (ks == [] ==> b == v.ch) &&
      (ks != [] ==>
        (exists i :: FirstOfLength(ks, b, i)) && (forall y :: y in ks ==> |y| <= |b|) && b in d &&
        KeyOfTerm(deinflect, Segmenter.KeywordVariants(Substr(sentence, v.idx, WindowLen)).value, b))
  {
    var ks := HitSetAt(d, deinflect, key, sentence, v).value;
    var window := Substr(sentence, v.idx, WindowLen);
    if ks != [] {
      SplitKeywordsArePrefixKeys(d, deinflect, key, window);
    }
  }

  /**
   * The page has one link per codepoint of the normalised sentence, showing
   * that codepoint and linking to its `bword`; its class is the headword
   * counter's verdict on the positions up to it.
   */
  lemma SplitLinksFit(p: Segmenter.MarisaParams, d: Dictionary, halfToFull: Folding, deinflect: Deinflector,
                      key: JpSets.Image)
    requires SplitLookedUp(p, Some(d), halfToFull, deinflect, key).Ok?
    ensures var q := Normalised(p, halfToFull);
      IterUnicodeChars(q.sentence).Ok? &&
      var vs := IterUnicodeChars(q.sentence).value;
      var links := SplitLookedUp(p, Some(d), halfToFull, deinflect, key).value.links;
      |links| == |vs| && forall n :: 0 <= n < |vs| ==> LinkFits(SplitBwords(d, deinflect, key, q.sentence), q.word, vs, links, n)
  {
    var q := Normalised(p, halfToFull);
    var vs := IterUnicodeChars(q.sentence).value;
    WalkLinks(SplitBwords(d, deinflect, key, q.sentence), q.word, vs);
  }

  /** One hit set per position, in order: the set of that position. */
  lemma {:induction false} HitSetsAt(hs: HitLookup, vs: seq<CharView>)
    requires HitSets(hs, vs).Ok?
    ensures |HitSets(hs, vs).value| == |vs|
    ensures forall n :: 0 <= n < |vs| ==> hs(vs[n]).Ok? && HitSets(hs, vs).value[n] == hs(vs[n]).value
    decreases |vs|
  {
    if vs != [] {
      var init := vs[..|vs| - 1];
      HitSetsAt(hs, init);
      assert forall n :: 0 <= n < |init| ==> init[n] == vs[n];
    }
  }

  /**
   * The alternatives section lists, for every non-empty hit set and for no
   * other, that set with each element marked iff it is the word.
   */
  lemma {:induction false} PrintedGroups(sets: seq<seq<Bytes>>, word: Bytes)
    ensures forall g :: g in Printed(sets, word) ==> g != [] && exists i :: 0 <= i < |sets| && g == Marked(sets[i], word)
    ensures forall i :: 0 <= i < |sets| && sets[i] != [] ==> Marked(sets[i], word) in Printed(sets, word)
    decreases |sets|
  {
    if sets != [] {
      var init := sets[..|sets| - 1];
      PrintedGroups(init, word);
      assert forall i :: 0 <= i < |init| ==> init[i] == sets[i];
    }
  }

  /** The hit sets can all be computed when every position has one. */
  lemma {:induction false} HitSetsSucceed(hs: HitLookup, vs: seq<CharView>)
    requires forall n :: 0 <= n < |vs| ==> hs(vs[n]).Ok?
    ensures HitSets(hs, vs).Ok?
    decreases |vs|
  {
    if vs != [] {
      var init := vs[..|vs| - 1];
      assert forall n :: 0 <= n < |init| ==> init[n] == vs[n];
      HitSetsSucceed(hs, init);
    }
  }

  /** Every window of a position of a sentence without bytes 0xF8..0xFF has a hit set. */
  lemma WindowHasHitSet(d: Dictionary, deinflect: Deinflector, key: JpSets.Image, sentence: Bytes, v: CharView)
    requires IsViewAt(sentence, 0, v) && NoBadBytes(sentence)
    ensures HitSetAt(d, deinflect, key, sentence, v).Ok? && SplitBwordAt(d, deinflect, key, sentence, v).Ok?
  {
    var window := Substr(sentence, v.idx, WindowLen);
    assert forall j :: 0 <= j < |window| ==> window[j] == sentence[v.idx + j];
    SplitKeywordsFailOnlyOnBadBytes(d, deinflect, key, window);
  }

  /**
   * With the word list present, `lookup_words` fails exactly when the
   * normalised sentence holds a byte in 0xF8..0xFF; the word is only compared.
   */
  lemma SplitLookupFailsOnlyOnBadBytes(p: Segmenter.MarisaParams, d: Dictionary, halfToFull: Folding,
                                       deinflect: Deinflector, key: JpSets.Image)
    ensures SplitLookedUp(p, Some(d), halfToFull, deinflect, key).Err? <==> !NoBadBytes(Normalised(p, halfToFull).sentence)
  {
    var q := Normalised(p, halfToFull);
    IterSucceeds(q.sentence, 0);
    if NoBadBytes(q.sentence) {
      var vs := IterUnicodeChars(q.sentence).value;
      IterViewsAt(q.sentence, 0);
      forall n | 0 <= n < |vs|
        ensures SplitHits(d, deinflect, key, q.sentence)(vs[n]).Ok?
        ensures SplitBwords(d, deinflect, key, q.sentence)(vs[n]).Ok?
      {
        WindowHasHitSet(d, deinflect, key, q.sentence, vs[n]);
      }
      WalkSucceeds(SplitBwords(d, deinflect, key, q.sentence), q.word, vs);
      HitSetsSucceed(SplitHits(d, deinflect, key, q.sentence), vs);
    }
  }

  // ---------------------------------------------------------------- marisa_split

  /**
   * `marisa_split(args)`: `fill_args<marisa_params>` (whose defaults run
   * `find_dic_file`), then `lookup_words` with the word list stored at
   * `path_to_dic`, and the two `catch` clauses.
   */
  function RunMarisaSplit(args: seq<Bytes>, installed: Option<Bytes>, load: Bytes -> Option<Dictionary>,
                          halfToFull: Folding, deinflect: Deinflector, key: JpSets.Image): Segmenter.Shown<SplitPage>
  {
    match Segmenter.MarisaArgs(args, installed)
    case Err(e) => Segmenter.Caught(Err(e))
    case Ok(p) => Segmenter.Caught(SplitLookedUp(p, load(p.pathToDic), halfToFull, deinflect, key))
  }

  /**
   * Here too the installed word list is looked for before any option is
   * read: without one, every command line, `--help` included, prints
   * "Couldn't find the word list."; with one, `--help` shows the help.
   */
  lemma SplitWordListNeededBeforeOptions(args: seq<Bytes>, path: Bytes, load: Bytes -> Option<Dictionary>,
                                         halfToFull: Folding, deinflect: Deinflector, key: JpSets.Image)
    ensures RunMarisaSplit(args, None, load, halfToFull, deinflect, key) == Segmenter.ErrorMessage(WordListMissing)
    ensures RunMarisaSplit([Ascii("--help")], Some(path), load, halfToFull, deinflect, key) == Segmenter.HelpText
  {
    assert IsHelpFlag(Ascii("--help"));
  }
}
