/**
 * The plain segmenter of src/marisa.cpp: for every codepoint of the sentence
 * it looks up the longest word-list entry that starts there, in the sentence's
 * own script and with hiragana and katakana swapped, marks the positions of
 * the selected word, and lists the entries that are prefixes of the word.
 */
module Segmenter {
  import opened Wrappers
  import opened ByteStrings
  import opened Util
  import opened Utf8Walk
  import opened KanaConv
  import opened PrefixDict
  import JpSets
  import opened LinkWalk

  /**
   * What `KanaInsensitiveCompare` orders by: the katakana form. A string the
   * conversion rejects never reaches the set (see `KeywordsHaveKanaImages`);
   * it stands for itself here.
   */
  function KanaImage(s: Bytes): Bytes {
    match ToKatakana(s)
    case Ok(k) => k
    case Err(_) => s
  }

  datatype MarisaParams = MarisaParams(word: Bytes, sentence: Bytes, pathToDic: Bytes)

  /** `marisa_params::assign`: `--word`, `--sentence` and `--path-to-dic` set their field; other keys are ignored. */
  function Assign(p: MarisaParams, key: Bytes, value: Bytes): (r: Result<MarisaParams, Failure>)
    ensures r.Ok?
    ensures key == Ascii("--word") ==> r.value == p.(word := value)
    ensures key == Ascii("--sentence") ==> r.value == p.(sentence := value)
    ensures key == Ascii("--path-to-dic") ==> r.value == p.(pathToDic := value)
    ensures key !in {Ascii("--word"), Ascii("--sentence"), Ascii("--path-to-dic")} ==> r.value == p
  {
    if key == Ascii("--word") then Ok(p.(word := value))
    else if key == Ascii("--sentence") then Ok(p.(sentence := value))
    else if key == Ascii("--path-to-dic") then Ok(p.(pathToDic := value))
    else Ok(p)
  }

  function Word(p: MarisaParams): Bytes {
    p.word
  }

  /** `gd-marisa --word W` with a plain word fills in the word and keeps everything else. */
  lemma WordArgumentFillsWord(init: MarisaParams, w: Bytes)
    requires w != [] && !StartsWithDash(w)
    ensures FilledArgs([Ascii("--word"), w], init, Assign, Word) == Ok(init.(word := w))
  {
    var args := [Ascii("--word"), w];
    assert args[0][2] != Ascii("--help")[2] && |args[0]| != |Ascii("-h")|;
    assert !IsHelpFlag(args[0]) && StartsWithDash(args[0]);
    assert ScanArgs(args, 2, init.(word := w), Assign) == Ok(init.(word := w));
  }

  // --------------------------------------------------------------- longest_result

  /** The keys the trie reports for `s`: the query is `s.c_str()`, cut at the first NUL. */
  function Hits(d: Dictionary, s: Bytes): seq<Bytes> {
    CommonPrefixSearch(d, CStr(s))
  }

  /**
   * What `longest_result` returns: the last key the prefix search reports,
   * or the first `fallback` bytes of `s` when there is none.
   */
  function LongestMatch(d: Dictionary, s: Bytes, fallback: nat): Bytes {
    var hits := Hits(d, s);
    if hits == [] then Substr(s, 0, fallback) else Substr(s, 0, |hits[|hits| - 1]|)
  }

  /**
   * The result is a prefix of `s`: the longest key that is a prefix of the
   * query, or the first `fallback` bytes of `s` when there is none.
   */
  lemma LongestMatchIsLongest(d: Dictionary, s: Bytes, fallback: nat)
    ensures LongestMatch(d, s, fallback) <= s
    ensures Hits(d, s) == [] ==> LongestMatch(d, s, fallback) == Substr(s, 0, fallback)
    ensures Hits(d, s) != [] ==> var r := LongestMatch(d, s, fallback);
      r in d && r <= CStr(s) && forall k :: k in d && k <= CStr(s) ==> |k| <= |r|
  {
    var hits := Hits(d, s);
    CommonPrefixSearchReports(d, CStr(s));
    if hits != [] {
      var k := hits[|hits| - 1];
      assert k in d && k <= CStr(s);
      assert s[..|k|] == k;
      forall k' | k' in d && k' <= CStr(s) ensures |k'| <= |k| {
        LastReportedIsLongest(d, CStr(s), k');
      }
    }
  }

  /** `longest_result`: the last length the prefix search reports wins. */
  method LongestResult(d: Dictionary, s: Bytes, longestlen: nat) returns (r: Bytes)
    ensures r == LongestMatch(d, s, longestlen)
  {
    var hits := Hits(d, s);
    var len := longestlen;
    var i := 0;
    while i < |hits|
      invariant i <= |hits|
      invariant len == if i == 0 then longestlen else |hits[i - 1]|
    {
      len := |hits[i]|;
      i := i + 1;
    }
    r := Substr(s, 0, len);
  }

  // -------------------------------------------------------------- longest_variant

  /** `std::max` over three strings by length: the first of the longest. */
  function FirstLongest(a: Bytes, b: Bytes, c: Bytes): (r: Bytes)
    ensures r == a || r == b || r == c
    ensures |a| <= |r| && |b| <= |r| && |c| <= |r|
    ensures |a| == |r| ==> r == a
    ensures |b| == |r| && |a| < |b| ==> r == b
  {
    var m := if |a| < |b| then b else a;
    if |m| < |c| then c else m
  }

  /** What `longest_variant` returns: the longest of the results for `s`, its hiragana and its katakana form. */
  function LongestVariantOf(d: Dictionary, s: Bytes, fallback: nat): Result<Bytes, Failure> {
    match ToHiragana(s)
    case Err(e) => Err(e)
    case Ok(k2h) =>
      match ToKatakana(s)
      case Err(e) => Err(e)
      case Ok(h2k) =>
        Ok(FirstLongest(LongestMatch(d, s, fallback), LongestMatch(d, k2h, fallback), LongestMatch(d, h2k, fallback)))
  }

  method LongestVariant(d: Dictionary, s: Bytes, fallback: nat) returns (r: Result<Bytes, Failure>)
    ensures r == LongestVariantOf(d, s, fallback)
  {
    var asIs := LongestResult(d, s, fallback);
    var k2h := KatakanaToHiragana(s);
    if k2h.Err? {
      return Err(k2h.error);
    }
    var fromK2h := LongestResult(d, k2h.value, fallback);
    var h2k := HiraganaToKatakana(s);
    if h2k.Err? {
      return Err(h2k.error);
    }
    var fromH2k := LongestResult(d, h2k.value, fallback);
    r := Ok(FirstLongest(asIs, fromK2h, fromH2k));
  }

  /**
   * `longest_variant` fails exactly on a byte in 0xF8..0xFF; otherwise it
   * returns the result of one of the three scripts, no shorter than the others,
   * and the as-is result whenever that is as long as the longest.
   */
  lemma LongestVariantChoice(d: Dictionary, s: Bytes, fallback: nat)
    ensures LongestVariantOf(d, s, fallback).Ok? <==> forall j :: 0 <= j < |s| ==> s[j] < 0xF8
    ensures LongestVariantOf(d, s, fallback).Ok? ==>
      var r := LongestVariantOf(d, s, fallback).value;
      var asIs := LongestMatch(d, s, fallback);
      var fromK2h := LongestMatch(d, ToHiragana(s).value, fallback);
      var fromH2k := LongestMatch(d, ToKatakana(s).value, fallback);
      (r == asIs || r == fromK2h || r == fromH2k) &&
      |asIs| <= |r| && |fromK2h| <= |r| && |fromH2k| <= |r| && (|asIs| == |r| ==> r == asIs)
  {
    ConvertSucceeds(KataToHira(), s);
    ConvertSucceeds(HiraToKata(), s);
    if LongestVariantOf(d, s, fallback).Ok? {
      var asIs := LongestMatch(d, s, fallback);
      var fromK2h := LongestMatch(d, ToHiragana(s).value, fallback);
      var fromH2k := LongestMatch(d, ToKatakana(s).value, fallback);
      assert LongestVariantOf(d, s, fallback).value == FirstLongest(asIs, fromK2h, fromH2k);
    }
  }

  // ------------------------------------------------------- keywords_starting_with

  /** The queries of `keywords_starting_with`: as-is, katakana, hiragana. */
  function KeywordVariants(s: Bytes): Result<seq<Bytes>, Failure> {
    match ToKatakana(s)
    case Err(e) => Err(e)
    case Ok(h2k) =>
      match ToHiragana(s)
      case Err(e) => Err(e)
      case Ok(k2h) => Ok([s, h2k, k2h])
  }

  /** Every key reported for the queries, query after query. */
  function AllHits(d: Dictionary, qs: seq<Bytes>): seq<Bytes> {
    if qs == [] then [] else AllHits(d, qs[..|qs| - 1]) + Hits(d, qs[|qs| - 1])
  }

  lemma AllHitsOfPrefix(d: Dictionary, qs: seq<Bytes>, v: nat)
    requires v < |qs|
    ensures AllHits(d, qs[..v + 1]) == AllHits(d, qs[..v]) + Hits(d, qs[v])
  {
    assert qs[..v + 1][..v] == qs[..v];
  }

  /** What `keywords_starting_with` returns: the set after emplacing every reported key. */
  function KeywordsOf(d: Dictionary, s: Bytes): Result<seq<Bytes>, Failure> {
    match KeywordVariants(s)
    case Err(e) => Err(e)
    case Ok(qs) => Ok(JpSets.InsertAll([], AllHits(d, qs), KanaImage))
  }

  method KeywordsStartingWith(d: Dictionary, s: Bytes) returns (r: Result<seq<Bytes>, Failure>)
    ensures r == KeywordsOf(d, s)
  {
    var h2k := HiraganaToKatakana(s);
    if h2k.Err? {
      return Err(h2k.error);
    }
    var k2h := KatakanaToHiragana(s);
    if k2h.Err? {
      return Err(k2h.error);
    }
    var results := EmplaceHits(d, [s, h2k.value, k2h.value], KanaImage);
    return Ok(results);
  }

  /** The loop of `keywords_starting_with`: emplace every key reported for each query in turn. */
  method EmplaceHits(d: Dictionary, variants: seq<Bytes>, key: JpSets.Image) returns (results: seq<Bytes>)
    ensures results == JpSets.InsertAll([], AllHits(d, variants), key)
  {
    results := [];
    for v := 0 to |variants|
      invariant results == JpSets.InsertAll([], AllHits(d, variants[..v]), key)
    {
      var hits := Hits(d, variants[v]);
      results := EmplaceEach(results, AllHits(d, variants[..v]), hits, key);
      AllHitsOfPrefix(d, variants, v);
    }
    assert variants[..|variants|] == variants;
  }

  /** The inner loop: emplace every hit of one query into the set built from `before`. */
  method EmplaceEach(s: seq<Bytes>, ghost before: seq<Bytes>, hits: seq<Bytes>, key: JpSets.Image) returns (results: seq<Bytes>)
    requires s == JpSets.InsertAll([], before, key)
    ensures results == JpSets.InsertAll([], before + hits, key)
  {
    results := s;
    var i := 0;
    assert before + hits[..0] == before;
    while i < |hits|
      invariant i <= |hits|
      invariant results == JpSets.InsertAll([], before + hits[..i], key)
    {
      JpSets.InsertAllStep(before, hits, i, key, results);
      results := JpSets.Insert(results, hits[i], key);
      i := i + 1;
    }
    assert hits[..i] == hits;
  }

  /** A query's prefix keys among all hits: `k` is a key and a prefix of one of the queries. */
  predicate PrefixOfSome(d: Dictionary, qs: seq<Bytes>, k: Bytes) {
    k in d && exists n :: 0 <= n < |qs| && k <= CStr(qs[n])
  }

  lemma {:induction false} AllHitsMembers(d: Dictionary, qs: seq<Bytes>)
    ensures forall k :: k in AllHits(d, qs) <==> PrefixOfSome(d, qs, k)
    decreases |qs|
  {
    if qs != [] {
      var init := qs[..|qs| - 1];
      AllHitsMembers(d, init);
      forall k ensures k in AllHits(d, qs) <==> PrefixOfSome(d, qs, k) {
        AllHitsStep(d, qs, k);
      }
    }
  }

  lemma AllHitsStep(d: Dictionary, qs: seq<Bytes>, k: Bytes)
    requires qs != []
    requires k in AllHits(d, qs[..|qs| - 1]) <==> PrefixOfSome(d, qs[..|qs| - 1], k)
    ensures k in AllHits(d, qs) <==> PrefixOfSome(d, qs, k)
  {
    var init := qs[..|qs| - 1];
    var q := qs[|qs| - 1];
    assert AllHits(d, qs) == AllHits(d, init) + Hits(d, q);
    ReportedIffPrefixKey(d, CStr(q), k);
    if PrefixOfSome(d, init, k) {
      SomeOfInit(d, qs, k);
    }
    if PrefixOfSome(d, qs, k) {
      SomeOfAll(d, qs, k);
    }
  }

  lemma SomeOfInit(d: Dictionary, qs: seq<Bytes>, k: Bytes)
    requires qs != [] && PrefixOfSome(d, qs[..|qs| - 1], k)
    ensures PrefixOfSome(d, qs, k)
  {
    var n :| 0 <= n < |qs| - 1 && k <= CStr(qs[..|qs| - 1][n]);
    assert qs[..|qs| - 1][n] == qs[n];
  }

  lemma SomeOfAll(d: Dictionary, qs: seq<Bytes>, k: Bytes)
    requires qs != [] && PrefixOfSome(d, qs, k)
    ensures PrefixOfSome(d, qs[..|qs| - 1], k) || (k in d && k <= CStr(qs[|qs| - 1]))
  {
    var n :| 0 <= n < |qs| && k <= CStr(qs[n]);
    if n < |qs| - 1 {
      assert qs[..|qs| - 1][n] == qs[n];
    }
  }

  /**
   * The keywords are word-list keys that are prefixes of one of the three
   * queries (keys that prefix the word, not keys that extend it); every such
   * key is represented by an element with its katakana form, the elements are
   * ordered by katakana form, and an element is the first key reported with
   * its katakana form.
   */
  lemma KeywordsArePrefixKeys(d: Dictionary, s: Bytes)
    requires KeywordsOf(d, s).Ok?
    ensures var ks := KeywordsOf(d, s).value; var qs := KeywordVariants(s).value;
      JpSets.Ordered(ks, KanaImage) &&
      (forall y :: y in ks ==> PrefixOfSome(d, qs, y)) &&
      (forall k :: PrefixOfSome(d, qs, k) ==> JpSets.Holds(ks, k, KanaImage)) &&
      (forall y :: y in ks ==> exists i :: JpSets.FirstWith(AllHits(d, qs), y, KanaImage, i))
  {
    var qs := KeywordVariants(s).value;
    SetOfHits(d, qs, KanaImage);
  }

  /** The set built from the hits of any list of queries, under any image. */
  lemma SetOfHits(d: Dictionary, qs: seq<Bytes>, key: JpSets.Image)
    ensures var xs := AllHits(d, qs); var ks := JpSets.InsertAll([], xs, key);
      JpSets.Ordered(ks, key) &&
      (forall y :: y in ks ==> PrefixOfSome(d, qs, y)) &&
      (forall k :: PrefixOfSome(d, qs, k) ==> JpSets.Holds(ks, k, key)) &&
      (forall y :: y in ks ==> exists i :: JpSets.FirstWith(xs, y, key, i))
  {
    var xs := AllHits(d, qs);
    AllHitsMembers(d, qs);
    JpSets.InsertAllFrom([], xs, key);
    JpSets.InsertAllHolds([], xs, key);
    JpSets.InsertAllKeepsFirst([], xs, key);
  }

  /** Every key reported for the queries has a katakana form: the comparator never raises. */
  lemma KeywordsHaveKanaImages(d: Dictionary, s: Bytes, k: Bytes)
    requires KeywordVariants(s).Ok?
    requires k in AllHits(d, KeywordVariants(s).value)
    ensures ToKatakana(k).Ok?
  {
    VariantsHaveNoBadBytes(s);
    HitsHaveNoBadBytes(d, KeywordVariants(s).value, k);
    ConvertSucceeds(HiraToKata(), k);
  }

  lemma VariantsHaveNoBadBytes(s: Bytes)
    requires KeywordVariants(s).Ok?
    ensures var qs := KeywordVariants(s).value;
      forall n :: 0 <= n < |qs| ==> NoBadBytes(qs[n])
  {
    var qs := KeywordVariants(s).value;
    ConvertSucceeds(HiraToKata(), s);
    OutputsHaveNoBadBytes(s);
    assert NoBadBytes(qs[0]) && NoBadBytes(qs[1]) && NoBadBytes(qs[2]);
  }

  lemma HitsHaveNoBadBytes(d: Dictionary, qs: seq<Bytes>, k: Bytes)
    requires forall n :: 0 <= n < |qs| ==> NoBadBytes(qs[n])
    requires k in AllHits(d, qs)
    ensures NoBadBytes(k)
  {
    AllHitsMembers(d, qs);
    assert PrefixOfSome(d, qs, k);
    var n :| 0 <= n < |qs| && k <= CStr(qs[n]);
    assert k <= qs[n];
    assert forall j :: 0 <= j < |k| ==> k[j] == qs[n][j];
  }

  /** The two conversions of a string without bytes 0xF8..0xFF have none either. */
  lemma OutputsHaveNoBadBytes(s: Bytes)
    requires NoBadBytes(s)
    ensures ToKatakana(s).Ok? && NoBadBytes(ToKatakana(s).value)
    ensures ToHiragana(s).Ok? && NoBadBytes(ToHiragana(s).value)
  {
    ConvertSucceeds(HiraToKata(), s);
    ConvertSucceeds(KataToHira(), s);
    var vs := IterUnicodeChars(s).value;
    IterViewsAt(s, 0);
    TableMapsKeepCharShape();
    ImagesHaveNoBadBytes(HiraToKata(), s, vs);
    ImagesHaveNoBadBytes(KataToHira(), s, vs);
  }

  lemma ImagesHaveNoBadBytes(m: KanaMap, s: Bytes, vs: seq<CharView>)
    requires KeepsCharShape(m)
    requires forall n :: 0 <= n < |vs| ==> IsViewAt(s, 0, vs[n])
    requires NoBadBytes(s)
    ensures NoBadBytes(Join(Images(m, ViewChars(vs))))
  {
    var ims := Images(m, ViewChars(vs));
    forall n | 0 <= n < |ims| ensures NoBadBytes(ims[n]) {
      var c := ViewChars(vs)[n];
      assert c == Substr(s, vs[n].idx, ByteLen(s[vs[n].idx]));
      if c in m {
        assert WellFormedChar(m[c]);
        forall j | 0 <= j < |m[c]| ensures m[c][j] < 0xF8 {
          if j > 0 {
            assert IsContinuation(m[c][j]);
          }
        }
      } else {
        assert forall j :: 0 <= j < |c| ==> c[j] == s[vs[n].idx + j];
      }
    }
    JoinBelow(ims);
  }

  lemma {:induction false} JoinBelow(parts: seq<Bytes>)
    requires forall n :: 0 <= n < |parts| ==> NoBadBytes(parts[n])
    ensures NoBadBytes(Join(parts))
    decreases |parts|
  {
    if parts != [] {
      JoinBelow(parts[1..]);
      assert Join(parts) == parts[0] + Join(parts[1..]);
      forall j | 0 <= j < |Join(parts)| ensures Join(parts)[j] < 0xF8 {
        if j >= |parts[0]| {
          assert Join(parts)[j] == Join(parts[1..])[j - |parts[0]|];
        }
      }
    }
  }

  // ----------------------------------------------------------------- lookup_words

  /** `max_forward_search_len_bytes`: ten three-byte codepoints. */
  const ForwardSearchLen: nat := 30

  /** The page: the links, and the alternatives list when the word is non-empty. */
  datatype Page = Page(links: seq<Link>, alternatives: Option<seq<Bytes>>)

  /** Whitespace erased from both strings; an empty sentence becomes the word. */
  function Normalised(p: MarisaParams): (q: MarisaParams)
    ensures q.pathToDic == p.pathToDic
    ensures forall k :: 0 <= k < |q.word| ==> !IsSpace(q.word[k])
    ensures forall k :: 0 <= k < |q.sentence| ==> !IsSpace(q.sentence[k])
    ensures q.sentence == [] ==> q.word == []
  {
    var word := EraseSpaces(p.word);
    var sentence := EraseSpaces(p.sentence);
    MarisaParams(word, if sentence == [] then word else sentence, p.pathToDic)
  }

  /** The `bword` at one position: the longest variant match in a 30-byte window from there. */
  function BwordAt(d: Dictionary, sentence: Bytes, v: CharView): Result<Bytes, Failure> {
    match SubstrChecked(sentence, v.idx, ForwardSearchLen)
    case Err(e) => Err(e)
    case Ok(window) => LongestVariantOf(d, window, |v.ch|)
  }

  /** The positions' lookup of `lookup_words`. */
  function Bwords(d: Dictionary, sentence: Bytes): Lookup {
    v => BwordAt(d, sentence, v)
  }

  /** The alternatives printed: the keywords whose katakana form differs from the word's. */
  function OtherSpellings(ks: seq<Bytes>, word: Bytes, key: JpSets.Image): (r: seq<Bytes>)
    ensures forall y :: y in r <==> y in ks && key(y) != key(word)
  {
    if ks == [] then []
    else
      var init := ks[..|ks| - 1];
      var y := ks[|ks| - 1];
      assert ks == init + [y];
      OtherSpellings(init, word, key) + (if key(y) != key(word) then [y] else [])
  }

  /** What `lookup_words` produces for the params and the word list at their path (None: no such file). */
  function LookedUp(p: MarisaParams, dic: Option<Dictionary>): Result<Page, Failure> {
    var q := Normalised(p);
    if dic.None? then Err(RuntimeError(DictionaryMissing(q.pathToDic)))
    else
      match IterUnicodeChars(q.sentence)
      case Err(e) => Err(e)
      case Ok(vs) =>
        match Walk(Bwords(dic.value, q.sentence), q.word, vs)
        case Err(e) => Err(e)
        case Ok((links, _)) =>
          if q.word == [] then Ok(Page(links, None))
          else
            match KeywordsOf(dic.value, q.word)
            case Err(e) => Err(e)
            case Ok(ks) => Ok(Page(links, Some(OtherSpellings(ks, q.word, KanaImage))))
  }

  method LookupWords(params: MarisaParams, dic: Option<Dictionary>) returns (r: Result<Page, Failure>)
    ensures r == LookedUp(params, dic)
  {
    var word := EraseSpaces(params.word);
    var sentence := EraseSpaces(params.sentence);
    if sentence == [] {
      sentence := word;
    }
    var raised := RaiseIf(dic.None?, DictionaryMissing(params.pathToDic));
    if raised.Err? {
      return Err(raised.error);
    }
    var d := dic.value;
    var walk := IterUnicodeChars(sentence);
    if walk.Err? {
      return Err(walk.error);
    }
    var walked := WalkSentence(d, sentence, word, walk.value);
    if walked.Err? {
      return Err(walked.error);
    }
    var (links, _) := walked.value;
    if word == [] {
      return Ok(Page(links, None));
    }
    var keywords := KeywordsStartingWith(d, word);
    if keywords.Err? {
      return Err(keywords.error);
    }
    var others := OtherSpellingsOf(keywords.value, word, KanaImage);
    return Ok(Page(links, Some(others)));
  }

  /** The loop of `lookup_words` over the codepoints of the sentence. */
  method WalkSentence(d: Dictionary, sentence: Bytes, word: Bytes, vs: seq<CharView>)
    returns (r: Result<(seq<Link>, int), Failure>)
    ensures r == Walk(Bwords(d, sentence), word, vs)
  {
    var links := [];
    var pos := 0;
    for n := 0 to |vs|
      invariant Walk(Bwords(d, sentence), word, vs[..n]) == Ok((links, pos))
    {
      var v := vs[n];
      assert vs[..n + 1][..n] == vs[..n] && vs[..n + 1][n] == v;
      var window := SubstrChecked(sentence, v.idx, ForwardSearchLen);
      if window.Err? {
        WalkStopsAt(Bwords(d, sentence), word, vs, n);
        return Err(window.error);
      }
      var bword := LongestVariant(d, window.value, |v.ch|);
      if bword.Err? {
        WalkStopsAt(Bwords(d, sentence), word, vs, n);
        return Err(bword.error);
      }
      pos := NextCounter(word, pos, v, bword.value);
      links := links + [Link(pos > 0, bword.value, v.ch)];
    }
    assert vs[..|vs|] == vs;
    return Ok((links, pos));
  }

  /** The filter of the alternatives list: keep the keywords whose image differs from the word's. */
  method OtherSpellingsOf(ks: seq<Bytes>, word: Bytes, key: JpSets.Image) returns (others: seq<Bytes>)
    ensures others == OtherSpellings(ks, word, key)
  {
    others := [];
    for i := 0 to |ks|
      invariant others == OtherSpellings(ks[..i], word, key)
    {
      assert ks[..i + 1][..i] == ks[..i];
      if key(ks[i]) != key(word) {
        others := others + [ks[i]];
      }
    }
    assert ks[..|ks|] == ks;
  }

  // ---------------------------------------------------------------- properties

  /** The word list is checked before anything else is looked at. */
  lemma MissingDictionaryRaises(p: MarisaParams)
    ensures LookedUp(p, None) == Err(RuntimeError(DictionaryMissing(p.pathToDic)))
  {
  }

  /** Every position of a well-formed sentence has a window, so the walk only fails on conversion. */
  lemma WalkFailsOnlyOnBadBytes(d: Dictionary, sentence: Bytes, word: Bytes, vs: seq<CharView>)
    requires forall n :: 0 <= n < |vs| ==> IsViewAt(sentence, 0, vs[n])
    requires forall j :: 0 <= j < |sentence| ==> sentence[j] < 0xF8
    ensures Walk(Bwords(d, sentence), word, vs).Ok?
  {
    forall n | 0 <= n < |vs| ensures Bwords(d, sentence)(vs[n]).Ok? {
      var v := vs[n];
      var window := Substr(sentence, v.idx, ForwardSearchLen);
      assert forall j :: 0 <= j < |window| ==> window[j] == sentence[v.idx + j];
      LongestVariantChoice(d, window, |v.ch|);
    }
    WalkSucceeds(Bwords(d, sentence), word, vs);
  }

  /**
   * With the word list present, `lookup_words` fails exactly when the sentence
   * or the word holds a byte in 0xF8..0xFF after whitespace removal, and then
   * with the error for the first such byte of the sentence, or of the word.
   */
  lemma LookupFailsOnlyOnBadBytes(p: MarisaParams, d: Dictionary)
    ensures var q := Normalised(p);
      LookedUp(p, Some(d)).Err? <==>
      (exists j :: 0 <= j < |q.sentence| && q.sentence[j] >= 0xF8) ||
      (exists j :: 0 <= j < |q.word| && q.word[j] >= 0xF8)
  {
    var q := Normalised(p);
    IterSucceeds(q.sentence, 0);
    if IterUnicodeChars(q.sentence).Ok? {
      var vs := IterUnicodeChars(q.sentence).value;
      IterViewsAt(q.sentence, 0);
      WalkFailsOnlyOnBadBytes(d, q.sentence, q.word, vs);
      ConvertSucceeds(HiraToKata(), q.word);
      ConvertSucceeds(KataToHira(), q.word);
    }
  }

  /**
   * The alternatives are listed exactly for a non-empty word; each is a
   * word-list key that is a prefix of the word in one of its three scripts,
   * and none has the word's katakana form.
   */
  lemma AlternativesArePrefixKeys(p: MarisaParams, d: Dictionary)
    requires LookedUp(p, Some(d)).Ok?
    ensures var q := Normalised(p); var alts := LookedUp(p, Some(d)).value.alternatives;
      (alts.Some? <==> q.word != []) &&
      (alts.Some? ==> KeywordVariants(q.word).Ok? && forall y :: y in alts.value ==>
        PrefixOfSome(d, KeywordVariants(q.word).value, y) && KanaImage(y) != KanaImage(q.word))
  {
    var q := Normalised(p);
    if q.word != [] {
      AlternativesOf(d, q.word);
    }
  }

  /** The alternatives of a word: prefix keys of one of its queries without the word's katakana form. */
  lemma AlternativesOf(d: Dictionary, word: Bytes)
    requires KeywordsOf(d, word).Ok?
    ensures KeywordVariants(word).Ok?
    ensures forall y :: y in OtherSpellings(KeywordsOf(d, word).value, word, KanaImage) ==>
      PrefixOfSome(d, KeywordVariants(word).value, y) && KanaImage(y) != KanaImage(word)
  {
    KeywordsArePrefixKeys(d, word);
  }

  /** With an empty (or all-space) sentence the word itself is segmented. */
  lemma EmptySentenceUsesWord(p: MarisaParams)
    requires EraseSpaces(p.sentence) == []
    ensures Normalised(p).sentence == EraseSpaces(p.word)
  {
  }

  // ---------------------------------------------------------------- marisa_split

  /**
   * `find_dic_file`: the first installed word list, or "Couldn't find the
   * word list." when neither location holds one. Which location holds a
   * file is outside the model: `installed` is what the search finds.
   */
  function FindDicFile(installed: Option<Bytes>): (r: Result<Bytes, Failure>)
    ensures r.Ok? <==> installed.Some?
    ensures r.Ok? ==> r.value == installed.value
    ensures r.Err? ==> r.error == RuntimeError(WordListMissing)
  {
    match installed
    case None => Err(RuntimeError(WordListMissing))
    case Some(path) => Ok(path)
  }

  /**
   * `fill_args<marisa_params>(args)`: `auto params = T{}` runs the default
   * member initializer of `path_to_dic`, that is `find_dic_file`, before
   * any argument is read; then the arguments are scanned.
   */
  function MarisaArgs(args: seq<Bytes>, installed: Option<Bytes>): Result<MarisaParams, Failure> {
    match FindDicFile(installed)
    case Err(e) => Err(e)
    case Ok(path) => FilledArgs(args, MarisaParams([], [], path), Assign, Word)
  }

  /** What `marisa_split` shows: the help text, an error message, the page, or nothing when an exception escapes both `catch` clauses. */
  datatype Shown<T> = HelpText | ErrorMessage(reason: Reason) | Output(page: T) | Terminated

  /** The two `catch` clauses of `marisa_split`: `help_requested` and `runtime_error`; `out_of_range` is caught by neither. */
  function Caught<T>(r: Result<T, Failure>): Shown<T> {
    match r
    case Ok(v) => Output(v)
    case Err(HelpRequested) => HelpText
    case Err(RuntimeError(reason)) => ErrorMessage(reason)
    case Err(OutOfRange) => Terminated
  }

  /**
   * `marisa_split(args)`: fill the parameters, look the words up in the
   * word list at `path_to_dic` (`load` gives the list stored at a path, or
   * None when there is no such file), and print what came out.
   */
  function RunMarisa(args: seq<Bytes>, installed: Option<Bytes>, load: Bytes -> Option<Dictionary>): Shown<Page> {
    match MarisaArgs(args, installed)
    case Err(e) => Caught(Err(e))
    case Ok(p) => Caught(LookedUp(p, load(p.pathToDic)))
  }

  /**
   * As written, a machine without an installed word list prints "Couldn't
   * find the word list." for every command line: `--help` does not show the
   * help, and `--path-to-dic FILE` is never read, even when FILE holds a
   * word list. With a list installed, the same command lines do what the
   * help text says.
   */
  lemma WordListNeededBeforeOptions(w: Bytes, file: Bytes, path: Bytes, load: Bytes -> Option<Dictionary>)
    requires w != [] && !StartsWithDash(w) && file != [] && !StartsWithDash(file)
    ensures RunMarisa([Ascii("--help")], None, load) == ErrorMessage(WordListMissing)
    ensures RunMarisa([Ascii("--help")], Some(path), load) == HelpText
    ensures RunMarisa([Ascii("--word"), w, Ascii("--path-to-dic"), file], None, load) == ErrorMessage(WordListMissing)
    ensures RunMarisa([Ascii("--word"), w, Ascii("--path-to-dic"), file], Some(path), load)
         == Caught(LookedUp(MarisaParams(w, [], file), load(file)))
  {
    assert IsHelpFlag(Ascii("--help"));
    var args := [Ascii("--word"), w, Ascii("--path-to-dic"), file];
    assert args[0][2] != Ascii("--help")[2] && |args[0]| != |Ascii("-h")|;
    assert args[2][2] != Ascii("--help")[2] && |args[2]| != |Ascii("-h")|;
    assert !IsHelpFlag(args[0]) && StartsWithDash(args[0]);
    assert !IsHelpFlag(args[2]) && StartsWithDash(args[2]);
    assert args[2] != Ascii("--word") && args[2] != Ascii("--sentence");
    var init := MarisaParams([], [], path);
    assert ScanArgs(args, 4, MarisaParams(w, [], file), Assign) == Ok(MarisaParams(w, [], file));
    assert ScanArgs(args, 2, init.(word := w), Assign) == Ok(MarisaParams(w, [], file));
  }

  /**
   * The evident intent, given that the help text calls `--path-to-dic`
   * optional: read the options first and look for an installed list only
   * when no path was given. A given path is never empty, since `fill_args`
   * rejects an empty value.
   */
  function RunMarisaDeferred(args: seq<Bytes>, installed: Option<Bytes>, load: Bytes -> Option<Dictionary>): Shown<Page> {
    match FilledArgs(args, MarisaParams([], [], []), Assign, Word)
    case Err(e) => Caught(Err(e))
    case Ok(p) =>
      if p.pathToDic != [] then Caught(LookedUp(p, load(p.pathToDic)))
      else
        match FindDicFile(installed)
        case Err(e) => Caught(Err(e))
        case Ok(path) => Caught(LookedUp(p.(pathToDic := path), load(path)))
  }

  /**
   * Scanning from two defaults that differ only in `path_to_dic` gives the
   * same outcome, except that each keeps its own default path unless a
   * (non-empty) `--path-to-dic` was read, which both then hold.
   */
  lemma {:induction false} ScanOverPaths(args: seq<Bytes>, i: nat, p1: MarisaParams, p2: MarisaParams)
    requires i <= |args|
    requires p1.word == p2.word && p1.sentence == p2.sentence
    ensures ScanArgs(args, i, p1, Assign).Err? <==> ScanArgs(args, i, p2, Assign).Err?
    ensures ScanArgs(args, i, p1, Assign).Err? ==> ScanArgs(args, i, p1, Assign).error == ScanArgs(args, i, p2, Assign).error
    ensures ScanArgs(args, i, p1, Assign).Ok? ==>
      var a, b := ScanArgs(args, i, p1, Assign).value, ScanArgs(args, i, p2, Assign).value;
      a.word == b.word && a.sentence == b.sentence &&
      ((a.pathToDic == p1.pathToDic && b.pathToDic == p2.pathToDic) || (a.pathToDic == b.pathToDic && a.pathToDic != []))
    decreases |args| - i
  {
    if i < |args| && !IsHelpFlag(args[i]) {
      var value := if i + 1 < |args| then args[i + 1] else [];
      if StartsWithDash(args[i]) {
        if value != [] && !StartsWithDash(value) {
          ScanOverPaths(args, i + 2, Assign(p1, args[i], value).value, Assign(p2, args[i], value).value);
        }
      } else {
        ScanOverPaths(args, i + 1, Assign(p1, args[i], value).value, Assign(p2, args[i], value).value);
      }
    }
  }

  /**
   * The corrected order shows the help for `--help` and honours a given
   * `--path-to-dic` whether or not a list is installed, and wherever a list
   * is installed it shows exactly what the code as written shows.
   */
  lemma DeferredLookupIsIntended(args: seq<Bytes>, installed: Option<Bytes>, path: Bytes, load: Bytes -> Option<Dictionary>)
    ensures RunMarisaDeferred([Ascii("--help")], installed, load) == HelpText
    ensures var r := FilledArgs(args, MarisaParams([], [], []), Assign, Word);
      r.Ok? && r.value.pathToDic != [] ==>
      RunMarisaDeferred(args, installed, load) == Caught(LookedUp(r.value, load(r.value.pathToDic)))
    ensures RunMarisaDeferred(args, Some(path), load) == RunMarisa(args, Some(path), load)
  {
    assert IsHelpFlag(Ascii("--help"));
    ScanOverPaths(args, 0, MarisaParams([], [], []), MarisaParams([], [], path));
    var r := ScanArgs(args, 0, MarisaParams([], [], []), Assign);
    if r.Ok? {
      var a, b := r.value, ScanArgs(args, 0, MarisaParams([], [], path), Assign).value;
      if a.pathToDic == [] {
        assert a.(pathToDic := path) == b;
      } else {
        assert a == b;
      }
    }
  }
}
