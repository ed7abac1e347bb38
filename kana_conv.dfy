/**
 * `create_map` and `convert_kana` of src/kana_conv.cpp and src/kana_conv.h,
 * and the two conversions `hiragana_to_katakana` and `katakana_to_hiragana`
 * that use the maps built from the tables.
 */
module KanaConv {
  import opened Wrappers
  import opened ByteStrings
  import opened Util
  import opened Utf8Walk
  import opened KanaTables

  /** A `std::map<std::string_view, std::string_view>` from one codepoint to its image. */
  type KanaMap = map<Bytes, Bytes>

  // ------------------------------------------------------------------ create_map

  /**
   * The loop of `create_map` over the pairs of `from`: `to.substr(idx, len)`
   * raises `out_of_range` past the end of `to`, and `emplace` never
   * overwrites a key that is already there.
   */
  function EmplaceAll(m: KanaMap, vs: seq<CharView>, to: Bytes): Result<KanaMap, Failure>
    decreases |vs|
  {
    if vs == [] then Ok(m)
    else if vs[0].idx > |to| then Err(OutOfRange)
    else
      var value := Substr(to, vs[0].idx, |vs[0].ch|);
      EmplaceAll(if vs[0].ch in m then m else m[vs[0].ch := value], vs[1..], to)
  }

  /** What `create_map(from, to)` returns. */
  function CreatedMap(from: Bytes, to: Bytes): Result<KanaMap, Failure> {
    match IterUnicodeChars(from)
    case Err(e) => Err(e)
    case Ok(vs) => EmplaceAll(map[], vs, to)
  }

  method CreateMap(from: Bytes, to: Bytes) returns (r: Result<KanaMap, Failure>)
    ensures r == CreatedMap(from, to)
  {
    var walk := IterUnicodeChars(from);
    if walk.Err? {
      return Err(walk.error);
    }
    var vs := walk.value;
    var result: KanaMap := map[];
    var n := 0;
    while n < |vs|
      invariant n <= |vs|
      invariant EmplaceAll(map[], vs, to) == EmplaceAll(result, vs[n..], to)
    {
      var v := vs[n];
      assert vs[n..][0] == v && vs[n..][1..] == vs[n + 1..];
      if v.idx > |to| {
        return Err(OutOfRange);
      }
      var value := Substr(to, v.idx, |v.ch|);
      if v.ch !in result {
        result := result[v.ch := value];
      }
      n := n + 1;
    }
    return Ok(result);
  }

  /** The emplace loop fails exactly when some offset lies past the end of `to`. */
  lemma {:induction false} EmplaceFails(m: KanaMap, vs: seq<CharView>, to: Bytes)
    ensures EmplaceAll(m, vs, to).Err? <==> exists n :: 0 <= n < |vs| && vs[n].idx > |to|
    ensures EmplaceAll(m, vs, to).Err? ==> EmplaceAll(m, vs, to).error == OutOfRange
    decreases |vs|
  {
    if vs != [] && vs[0].idx <= |to| {
      var m' := if vs[0].ch in m then m else m[vs[0].ch := Substr(to, vs[0].idx, |vs[0].ch|)];
      EmplaceFails(m', vs[1..], to);
      assert forall n :: 1 <= n < |vs| ==> vs[1..][n - 1] == vs[n];
    }
  }

  /** The keys are the keys already there plus the substring of every pair. */
  lemma {:induction false} EmplaceKeys(m: KanaMap, vs: seq<CharView>, to: Bytes)
    requires EmplaceAll(m, vs, to).Ok?
    ensures EmplaceAll(m, vs, to).value.Keys == m.Keys + set v | v in vs :: v.ch
    decreases |vs|
  {
    if vs != [] {
      var m' := if vs[0].ch in m then m else m[vs[0].ch := Substr(to, vs[0].idx, |vs[0].ch|)];
      EmplaceKeys(m', vs[1..], to);
      var all := set v | v in vs :: v.ch;
      var tail := set v | v in vs[1..] :: v.ch;
      assert all == {vs[0].ch} + tail by {
        assert vs == [vs[0]] + vs[1..];
      }
    }
  }

  /** A key that was already there keeps its value. */
  lemma {:induction false} EmplaceKeeps(m: KanaMap, vs: seq<CharView>, to: Bytes, k: Bytes)
    requires EmplaceAll(m, vs, to).Ok? && k in m
    ensures k in EmplaceAll(m, vs, to).value && EmplaceAll(m, vs, to).value[k] == m[k]
    decreases |vs|
  {
    if vs != [] {
      var m' := if vs[0].ch in m then m else m[vs[0].ch := Substr(to, vs[0].idx, |vs[0].ch|)];
      EmplaceKeeps(m', vs[1..], to, k);
    }
  }

  /**
   * When a codepoint repeats in `from`, its first pair decides the value: the
   * value is the substring of `to` at that pair's offset.
   */
  lemma {:induction false} EmplaceFirstWins(m: KanaMap, vs: seq<CharView>, to: Bytes, n: nat)
    requires EmplaceAll(m, vs, to).Ok?
    requires n < |vs| && vs[n].idx <= |to| && vs[n].ch !in m
    requires forall p :: 0 <= p < n ==> vs[p].ch != vs[n].ch
    ensures vs[n].ch in EmplaceAll(m, vs, to).value
    ensures EmplaceAll(m, vs, to).value[vs[n].ch] == Substr(to, vs[n].idx, |vs[n].ch|)
    decreases n
  {
    var m' := if vs[0].ch in m then m else m[vs[0].ch := Substr(to, vs[0].idx, |vs[0].ch|)];
    if n == 0 {
      EmplaceKeeps(m', vs[1..], to, vs[0].ch);
    } else {
      assert vs[1..][n - 1] == vs[n];
      EmplaceFirstWins(m', vs[1..], to, n - 1);
    }
  }

  /**
   * When every pair's substring of `to` is the image `T` gives its key, and
   * the map already agrees with `T`, the loop succeeds and the map agrees with `T`.
   */
  lemma {:induction false} EmplaceAgrees(m: KanaMap, vs: seq<CharView>, to: Bytes, T: Bytes -> Bytes)
    requires forall n :: 0 <= n < |vs| ==> vs[n].idx <= |to| && Substr(to, vs[n].idx, |vs[n].ch|) == T(vs[n].ch)
    requires forall k :: k in m ==> m[k] == T(k)
    ensures EmplaceAll(m, vs, to).Ok?
    ensures forall k :: k in EmplaceAll(m, vs, to).value ==> EmplaceAll(m, vs, to).value[k] == T(k)
    decreases |vs|
  {
    if vs != [] {
      var m' := if vs[0].ch in m then m else m[vs[0].ch := Substr(to, vs[0].idx, |vs[0].ch|)];
      assert forall n :: 1 <= n < |vs| ==> vs[1..][n - 1] == vs[n];
      EmplaceAgrees(m', vs[1..], to, T);
    }
  }

  // ------------------------------------------------------------- the table maps

  lemma {:induction false} JoinOfThrees(cs: seq<Bytes>)
    requires forall n :: 0 <= n < |cs| ==> |cs[n]| == 3
    ensures |Join(cs)| == 3 * |cs|
    decreases |cs|
  {
    if cs != [] {
      JoinOfThrees(cs[1..]);
    }
  }

  /** The n-th sequence of a join sits right after the join of the ones before it. */
  lemma JoinAt(cs: seq<Bytes>, n: nat)
    requires n < |cs|
    ensures Join(cs) == Join(cs[..n]) + cs[n] + Join(cs[n + 1..])
  {
    assert cs == cs[..n] + cs[n..];
    JoinAppend(cs[..n], cs[n..]);
    assert cs[n..][1..] == cs[n + 1..];
  }

  lemma EncodeAllLayout(cps: seq<int>, n: nat)
    requires forall p :: 0 <= p < |cps| ==> ThreeByte(cps[p])
    requires n < |cps|
    ensures |EncodeAll(cps)| == 3 * |cps|
    ensures |Join(Encoded(cps)[..n])| == 3 * n
    ensures Substr(EncodeAll(cps), 3 * n, 3) == Encode3(cps[n])
  {
    var cs := Encoded(cps);
    JoinOfThrees(cs);
    JoinOfThrees(cs[..n]);
    JoinAt(cs, n);
    var s := Join(cs);
    assert s[3 * n..3 * n + 3] == cs[n];
  }

  /**
   * `create_map` over two tables of three-byte code points, where each image
   * is what `T` gives the key at the same position: the keys are the code
   * points of `from`, and every key maps to its image under `T`.
   */
  lemma TableMap(fcps: seq<int>, tcps: seq<int>, T: Bytes -> Bytes)
    requires |fcps| == |tcps|
    requires forall n :: 0 <= n < |fcps| ==> ThreeByte(fcps[n]) && ThreeByte(tcps[n])
    requires forall n :: 0 <= n < |fcps| ==> Encode3(tcps[n]) == T(Encode3(fcps[n]))
    ensures CreatedMap(EncodeAll(fcps), EncodeAll(tcps)) == Ok(MapOver(KeysOf(fcps), T))
  {
    var vs := TableWalk(fcps, tcps, T);
    EmplaceTable(fcps, vs, EncodeAll(tcps), T);
  }

  /** The walk of an encoded table: one pair per code point, each with its image in `to` at its offset. */
  lemma TableWalk(fcps: seq<int>, tcps: seq<int>, T: Bytes -> Bytes) returns (vs: seq<CharView>)
    requires |fcps| == |tcps|
    requires forall n :: 0 <= n < |fcps| ==> ThreeByte(fcps[n]) && ThreeByte(tcps[n])
    requires forall n :: 0 <= n < |fcps| ==> Encode3(tcps[n]) == T(Encode3(fcps[n]))
    ensures CreatedMap(EncodeAll(fcps), EncodeAll(tcps)) == EmplaceAll(map[], vs, EncodeAll(tcps))
    ensures |vs| == |fcps|
    ensures forall n :: 0 <= n < |vs| ==> vs[n].ch == Encode3(fcps[n])
    ensures forall n :: 0 <= n < |vs| ==>
      vs[n].idx <= |EncodeAll(tcps)| && Substr(EncodeAll(tcps), vs[n].idx, |vs[n].ch|) == T(vs[n].ch)
  {
    var fcs := Encoded(fcps);
    var from := EncodeAll(fcps);
    IterOfJoin(fcs, 0);
    IterOffsetsOfJoin(fcs, 0);
    vs := Iter(from, 0).value;
    TableViews(fcps, tcps, T, vs);
  }

  /** The emplace loop over the walk of a table builds the map of the table's keys to their images. */
  lemma EmplaceTable(fcps: seq<int>, vs: seq<CharView>, to: Bytes, T: Bytes -> Bytes)
    requires forall n :: 0 <= n < |fcps| ==> ThreeByte(fcps[n])
    requires |vs| == |fcps| && forall n :: 0 <= n < |vs| ==> vs[n].ch == Encode3(fcps[n])
    requires forall n :: 0 <= n < |vs| ==> vs[n].idx <= |to| && Substr(to, vs[n].idx, |vs[n].ch|) == T(vs[n].ch)
    ensures EmplaceAll(map[], vs, to) == Ok(MapOver(KeysOf(fcps), T))
  {
    EmplaceAgrees(map[], vs, to, T);
    EmplaceTableKeys(fcps, vs, to);
    SameMaps(EmplaceAll(map[], vs, to).value, MapOver(KeysOf(fcps), T));
  }

  lemma EmplaceTableKeys(fcps: seq<int>, vs: seq<CharView>, to: Bytes)
    requires forall n :: 0 <= n < |fcps| ==> ThreeByte(fcps[n])
    requires |vs| == |fcps| && forall n :: 0 <= n < |vs| ==> vs[n].ch == Encode3(fcps[n])
    requires EmplaceAll(map[], vs, to).Ok?
    ensures EmplaceAll(map[], vs, to).value.Keys == KeysOf(fcps)
  {
    var empty: KanaMap := map[];
    EmplaceKeys(empty, vs, to);
    SameKeys(vs, fcps);
    assert empty.Keys + (set v | v in vs :: v.ch) == (set v | v in vs :: v.ch);
  }

  /** Two maps with the same keys and the same value at every key are equal. */
  lemma SameMaps(m: KanaMap, f: KanaMap)
    requires m.Keys == f.Keys && forall c :: c in m ==> m[c] == f[c]
    ensures m == f
  {
  }

  lemma SameKeys(vs: seq<CharView>, fcps: seq<int>)
    requires |vs| == |fcps|
    requires forall n :: 0 <= n < |fcps| ==> ThreeByte(fcps[n]) && vs[n].ch == Encode3(fcps[n])
    ensures (set v | v in vs :: v.ch) == set n | 0 <= n < |fcps| :: Encode3(fcps[n])
  {
    var viewKeys := set v | v in vs :: v.ch;
    var codeKeys := set n | 0 <= n < |fcps| :: Encode3(fcps[n]);
    forall k | k in viewKeys ensures k in codeKeys {
      var v :| v in vs && v.ch == k;
      var n :| 0 <= n < |vs| && vs[n] == v;
      assert Encode3(fcps[n]) == k;
    }
    forall k | k in codeKeys ensures k in viewKeys {
      var n :| 0 <= n < |fcps| && Encode3(fcps[n]) == k;
      assert vs[n] in vs && vs[n].ch == k;
    }
  }

  lemma TableViews(fcps: seq<int>, tcps: seq<int>, T: Bytes -> Bytes, vs: seq<CharView>)
    requires |fcps| == |tcps|
    requires forall n :: 0 <= n < |fcps| ==> ThreeByte(fcps[n]) && ThreeByte(tcps[n])
    requires forall n :: 0 <= n < |fcps| ==> Encode3(tcps[n]) == T(Encode3(fcps[n]))
    requires ViewChars(vs) == Encoded(fcps)
    requires forall n :: 0 <= n < |vs| ==> vs[n].idx == |Join(Encoded(fcps)[..n])|
    ensures forall n :: 0 <= n < |vs| ==> vs[n].ch == Encode3(fcps[n])
    ensures forall n :: 0 <= n < |vs| ==>
      vs[n].idx <= |EncodeAll(tcps)| && Substr(EncodeAll(tcps), vs[n].idx, |vs[n].ch|) == T(vs[n].ch)
  {
    forall n | 0 <= n < |vs|
      ensures vs[n].ch == Encode3(fcps[n])
      ensures vs[n].idx <= |EncodeAll(tcps)| && Substr(EncodeAll(tcps), vs[n].idx, |vs[n].ch|) == T(vs[n].ch)
    {
      assert vs[n].ch == ViewChars(vs)[n];
      EncodeAllLayout(fcps, n);
      EncodeAllLayout(tcps, n);
    }
  }

  /** The image of a three-byte hiragana key: the encoding of its shifted code point. */
  function Shifted(k: Bytes): Bytes {
    if |k| == 3 && InHiraganaBlock(Decode3(k)) then Encode3(KanaShift(Decode3(k))) else k
  }

  /** The image of a three-byte katakana key: the encoding of its unshifted code point. */
  function Unshifted(k: Bytes): Bytes {
    if |k| == 3 && ThreeByte(Decode3(k)) && ThreeByte(KanaUnshift(Decode3(k))) then Encode3(KanaUnshift(Decode3(k))) else k
  }

  /** The encodings of the code points of a table. */
  function KeysOf(cps: seq<int>): set<Bytes>
    requires forall n :: 0 <= n < |cps| ==> ThreeByte(cps[n])
  {
    set n | 0 <= n < |cps| :: Encode3(cps[n])
  }

  /** The map sending every key of `keys` to its image under `T`. */
  function MapOver(keys: set<Bytes>, T: Bytes -> Bytes): (m: KanaMap)
    ensures m.Keys == keys && forall c :: c in keys ==> m[c] == T(c)
  {
    map c | c in keys :: T(c)
  }

  /** A key of a table is the encoding of the code point at some position. */
  lemma KeyOf(cps: seq<int>, c: Bytes) returns (n: nat)
    requires forall n :: 0 <= n < |cps| ==> ThreeByte(cps[n])
    requires c in KeysOf(cps)
    ensures n < |cps| && c == Encode3(cps[n])
  {
    n :| 0 <= n < |cps| && c == Encode3(cps[n]);
  }

  /** The map built from paired tables `h` and `k`: every hiragana of `h` maps to its shift. */
  function ForwardMap(h: seq<int>, k: seq<int>): KanaMap
    requires Paired(h, k)
  {
    MapOver(KeysOf(h), Shifted)
  }

  /** The map built from paired tables the other way: every katakana of `k` maps back. */
  function BackwardMap(h: seq<int>, k: seq<int>): KanaMap
    requires Paired(h, k)
  {
    MapOver(KeysOf(k), Unshifted)
  }

  /** Each katakana of paired tables is the image of its hiragana. */
  lemma ShiftedAt(h: seq<int>, k: seq<int>, n: nat)
    requires Paired(h, k) && n < |h|
    ensures ThreeByte(h[n]) && ThreeByte(k[n])
    ensures Encode3(k[n]) == Shifted(Encode3(h[n]))
  {
    Decode3Encode3(h[n]);
  }

  /** Each hiragana of paired tables is the image of its katakana. */
  lemma UnshiftedAt(h: seq<int>, k: seq<int>, n: nat)
    requires Paired(h, k) && n < |h|
    ensures ThreeByte(h[n]) && ThreeByte(k[n])
    ensures Encode3(h[n]) == Unshifted(Encode3(k[n]))
  {
    Decode3Encode3(k[n]);
    KanaUnshiftShift(h[n]);
  }

  /** `create_map(from, to)` over paired tables, hiragana first, builds `ForwardMap`. */
  lemma CreateMapForward(h: seq<int>, k: seq<int>)
    requires Paired(h, k)
    ensures CreatedMap(EncodeAll(h), EncodeAll(k)) == Ok(ForwardMap(h, k))
  {
    forall n | 0 <= n < |h| ensures Encode3(k[n]) == Shifted(Encode3(h[n])) {
      ShiftedAt(h, k, n);
    }
    TableMap(h, k, Shifted);
  }

  /** `create_map(from, to)` over paired tables, katakana first, builds `BackwardMap`. */
  lemma CreateMapBackward(h: seq<int>, k: seq<int>)
    requires Paired(h, k)
    ensures CreatedMap(EncodeAll(k), EncodeAll(h)) == Ok(BackwardMap(h, k))
  {
    forall n | 0 <= n < |k| ensures Encode3(h[n]) == Unshifted(Encode3(k[n])) {
      UnshiftedAt(h, k, n);
    }
    TableMap(k, h, Unshifted);
  }

  /** A key of the forward map, sent there and back, is itself again. */
  lemma ForwardThenBackward(h: seq<int>, k: seq<int>, c: Bytes)
    requires Paired(h, k) && c in ForwardMap(h, k)
    ensures ForwardMap(h, k)[c] in BackwardMap(h, k) && BackwardMap(h, k)[ForwardMap(h, k)[c]] == c
  {
    var n := KeyOf(h, c);
    Decode3Encode3(h[n]);
    assert ForwardMap(h, k)[c] == Encode3(k[n]);
    Decode3Encode3(k[n]);
    KanaUnshiftShift(h[n]);
  }

  /** A key of the backward map, sent there and back, is itself again. */
  lemma BackwardThenForward(h: seq<int>, k: seq<int>, c: Bytes)
    requires Paired(h, k) && c in BackwardMap(h, k)
    ensures BackwardMap(h, k)[c] in ForwardMap(h, k) && ForwardMap(h, k)[BackwardMap(h, k)[c]] == c
  {
    var n := KeyOf(k, c);
    Decode3Encode3(k[n]);
    KanaUnshiftShift(h[n]);
    assert BackwardMap(h, k)[c] == Encode3(h[n]);
    Decode3Encode3(h[n]);
  }

  /** Keys and images of the maps of paired tables are single three-byte characters. */
  lemma PairedImagesAreChars(h: seq<int>, k: seq<int>, c: Bytes)
    requires Paired(h, k)
    ensures c in ForwardMap(h, k) ==> |c| == 3 && WellFormedChar(c) && WellFormedChar(ForwardMap(h, k)[c]) && |ForwardMap(h, k)[c]| == 3
    ensures c in BackwardMap(h, k) ==> |c| == 3 && WellFormedChar(c) && WellFormedChar(BackwardMap(h, k)[c]) && |BackwardMap(h, k)[c]| == 3
  {
    if c in ForwardMap(h, k) {
      var n := KeyOf(h, c);
      Decode3Encode3(h[n]);
    }
    if c in BackwardMap(h, k) {
      var n := KeyOf(k, c);
      Decode3Encode3(k[n]);
      KanaUnshiftShift(h[n]);
    }
  }

  /** An image of the forward map is not a key, except a code point that maps to itself. */
  lemma ForwardImageIsFixed(h: seq<int>, k: seq<int>, c: Bytes)
    requires Paired(h, k)
    ensures Image(ForwardMap(h, k), Image(ForwardMap(h, k), c)) == Image(ForwardMap(h, k), c)
  {
    var m := ForwardMap(h, k);
    if c in m {
      var n := KeyOf(h, c);
      Decode3Encode3(h[n]);
      KanaUnshiftShift(h[n]);
      if m[c] in m {
        var p := KeyOf(h, m[c]);
        Encode3Injective(KanaShift(h[n]), h[p]);
      }
    }
  }

  /** Every image of the forward map is left alone by a second lookup. */
  lemma ForwardImagesFixed(h: seq<int>, k: seq<int>)
    requires Paired(h, k)
    ensures ImagesFixed(ForwardMap(h, k))
  {
    forall c | c in ForwardMap(h, k) ensures Image(ForwardMap(h, k), ForwardMap(h, k)[c]) == ForwardMap(h, k)[c] {
      ForwardImageIsFixed(h, k, c);
    }
  }

  /**
   * The map of `hiragana_to_katakana`: every hiragana code point of the table
   * maps to the katakana 0x60 further on, U+309A to itself.
   */
  function HiraToKata(): KanaMap {
    TablesPaired();
    ForwardMap(HiraganaCodepoints, KatakanaCodepoints)
  }

  /**
   * The map of `katakana_to_hiragana`: every katakana code point of the table
   * maps back to the hiragana 0x60 before it, U+309A to itself.
   */
  function KataToHira(): KanaMap {
    TablesPaired();
    BackwardMap(HiraganaCodepoints, KatakanaCodepoints)
  }

  /** `create_map(hiragana_chars, katakana_chars)` builds exactly `HiraToKata`. */
  lemma CreateMapGivesHiraToKata()
    ensures CreatedMap(HiraganaChars(), KatakanaChars()) == Ok(HiraToKata())
  {
    TablesPaired();
    CreateMapForward(HiraganaCodepoints, KatakanaCodepoints);
  }

  /** `create_map(katakana_chars, hiragana_chars)` builds exactly `KataToHira`. */
  lemma CreateMapGivesKataToHira()
    ensures CreatedMap(KatakanaChars(), HiraganaChars()) == Ok(KataToHira())
  {
    TablesPaired();
    CreateMapBackward(HiraganaCodepoints, KatakanaCodepoints);
  }

  /** `back` undoes `there` on every key of `there`. */
  predicate Inverts(there: KanaMap, back: KanaMap) {
    forall k :: k in there ==> there[k] in back && back[there[k]] == k
  }

  /** The maps of paired tables are mutual inverses. */
  lemma PairedMapsInvert(h: seq<int>, k: seq<int>)
    requires Paired(h, k)
    ensures Inverts(ForwardMap(h, k), BackwardMap(h, k))
    ensures Inverts(BackwardMap(h, k), ForwardMap(h, k))
  {
    forall c | c in ForwardMap(h, k)
      ensures ForwardMap(h, k)[c] in BackwardMap(h, k) && BackwardMap(h, k)[ForwardMap(h, k)[c]] == c
    {
      ForwardThenBackward(h, k, c);
    }
    forall c | c in BackwardMap(h, k)
      ensures BackwardMap(h, k)[c] in ForwardMap(h, k) && ForwardMap(h, k)[BackwardMap(h, k)[c]] == c
    {
      BackwardThenForward(h, k, c);
    }
  }

  /** The two table maps are mutual inverses: each undoes the other on its keys. */
  lemma MapsAreMutualInverses()
    ensures Inverts(HiraToKata(), KataToHira()) && Inverts(KataToHira(), HiraToKata())
  {
    TablesPaired();
    PairedMapsInvert(HiraganaCodepoints, KatakanaCodepoints);
  }

  // -------------------------------------------------------------- convert_kana

  /** The image of one codepoint: the map's value for a key, the codepoint itself otherwise. */
  function Image(m: KanaMap, c: Bytes): Bytes {
    if c in m then m[c] else c
  }

  function Images(m: KanaMap, cs: seq<Bytes>): (r: seq<Bytes>)
    ensures |r| == |cs| && forall n :: 0 <= n < |cs| ==> r[n] == Image(m, cs[n])
  {
    seq(|cs|, n requires 0 <= n < |cs| => Image(m, cs[n]))
  }

  /** What `convert_kana` returns: the images of the walk's substrings, concatenated in order. */
  function Converted(m: KanaMap, s: Bytes): Result<Bytes, Failure> {
    match IterUnicodeChars(s)
    case Err(e) => Err(e)
    case Ok(vs) => Ok(Join(Images(m, ViewChars(vs))))
  }

  method ConvertKana(m: KanaMap, str: Bytes) returns (r: Result<Bytes, Failure>)
    ensures r == Converted(m, str)
  {
    var walk := IterUnicodeChars(str);
    if walk.Err? {
      return Err(walk.error);
    }
    var cs := ViewChars(walk.value);
    var result := [];
    for n := 0 to |cs|
      invariant result == Join(Images(m, cs[..n]))
    {
      var image := if cs[n] in m then m[cs[n]] else cs[n];
      JoinAppend(Images(m, cs[..n]), [image]);
      assert Images(m, cs[..n + 1]) == Images(m, cs[..n]) + [image];
      assert Join([image]) == image + Join([]);
      result := result + image;
    }
    assert cs[..|cs|] == cs;
    return Ok(result);
  }

  /** `hiragana_to_katakana` as a value. */
  function ToKatakana(s: Bytes): Result<Bytes, Failure> {
    Converted(HiraToKata(), s)
  }

  /** `katakana_to_hiragana` as a value. */
  function ToHiragana(s: Bytes): Result<Bytes, Failure> {
    Converted(KataToHira(), s)
  }

  /** `hiragana_to_katakana`: build the map from the tables, then convert. */
  method HiraganaToKatakana(str: Bytes) returns (r: Result<Bytes, Failure>)
    ensures r == ToKatakana(str)
  {
    var convMap := CreateMap(HiraganaChars(), KatakanaChars());
    CreateMapGivesHiraToKata();
    r := ConvertKana(convMap.value, str);
  }

  /** `katakana_to_hiragana`: build the map from the tables, then convert. */
  method KatakanaToHiragana(str: Bytes) returns (r: Result<Bytes, Failure>)
    ensures r == ToHiragana(str)
  {
    var convMap := CreateMap(KatakanaChars(), HiraganaChars());
    CreateMapGivesKataToHira();
    r := ConvertKana(convMap.value, str);
  }

  // --------------------------------------------------------- conversion properties

  /** The conversion raises at the first byte in 0xF8..0xFF, whatever the map. */
  lemma ConvertRaises(m: KanaMap, s: Bytes, j: nat)
    requires j < |s| && s[j] >= 0xF8
    requires forall p :: 0 <= p < j ==> s[p] < 0xF8
    ensures Converted(m, s) == Err(RuntimeError(UnrecognizedByte(s[j])))
  {
    IterFailsAtFirstBadByte(s, 0, j);
  }

  /** The conversion completes exactly when no byte is in 0xF8..0xFF, whatever the map. */
  lemma ConvertSucceeds(m: KanaMap, s: Bytes)
    ensures Converted(m, s).Ok? <==> forall j :: 0 <= j < |s| ==> s[j] < 0xF8
  {
    IterSucceeds(s, 0);
  }

  /** On complete sequences the conversion is the concatenation of their images. */
  lemma ConvertedOfJoin(m: KanaMap, cs: seq<Bytes>)
    requires forall n :: 0 <= n < |cs| ==> WellFormedChar(cs[n])
    ensures Converted(m, Join(cs)) == Ok(Join(Images(m, cs)))
  {
    IterOfJoin(cs, 0);
  }

  /** Codepoints that are not keys (kanji, ー, 〜, ASCII, four-byte emoji) pass through unchanged. */
  lemma PassThrough(m: KanaMap, cs: seq<Bytes>)
    requires forall n :: 0 <= n < |cs| ==> WellFormedChar(cs[n]) && cs[n] !in m
    ensures Converted(m, Join(cs)) == Ok(Join(cs))
  {
    ConvertedOfJoin(m, cs);
    assert Images(m, cs) == cs;
  }

  lemma {:induction false} JoinLengthsAgree(a: seq<Bytes>, b: seq<Bytes>)
    requires |a| == |b| && forall n :: 0 <= n < |a| ==> |a[n]| == |b[n]|
    ensures |Join(a)| == |Join(b)|
    decreases |a|
  {
    if a != [] {
      JoinLengthsAgree(a[1..], b[1..]);
    }
  }

  /** Every value of the map is one complete character as long as its key. */
  predicate KeepsCharShape(m: KanaMap) {
    forall k :: k in m ==> |m[k]| == |k| && WellFormedChar(m[k])
  }

  /** Every value of the map is left alone by a second lookup. */
  predicate ImagesFixed(m: KanaMap) {
    forall k :: k in m ==> Image(m, m[k]) == m[k]
  }

  /** The maps of paired tables send every key to one character of the same length. */
  lemma PairedMapsKeepCharShape(h: seq<int>, k: seq<int>)
    requires Paired(h, k)
    ensures KeepsCharShape(ForwardMap(h, k)) && KeepsCharShape(BackwardMap(h, k))
  {
    forall c | c in ForwardMap(h, k) ensures |ForwardMap(h, k)[c]| == |c| && WellFormedChar(ForwardMap(h, k)[c]) {
      PairedImagesAreChars(h, k, c);
    }
    forall c | c in BackwardMap(h, k) ensures |BackwardMap(h, k)[c]| == |c| && WellFormedChar(BackwardMap(h, k)[c]) {
      PairedImagesAreChars(h, k, c);
    }
  }

  lemma TableMapsKeepCharShape()
    ensures KeepsCharShape(HiraToKata()) && KeepsCharShape(KataToHira())
  {
    TablesPaired();
    PairedMapsKeepCharShape(HiraganaCodepoints, KatakanaCodepoints);
  }

  /**
   * For a map that keeps the shape of characters, converting well-formed input
   * keeps its byte length and its number of codepoints, and the output is well-formed.
   */
  lemma ConvertKeepsShape(m: KanaMap, cs: seq<Bytes>)
    requires KeepsCharShape(m)
    requires forall n :: 0 <= n < |cs| ==> WellFormedChar(cs[n])
    ensures var out := Join(Images(m, cs));
      Converted(m, Join(cs)) == Ok(out) && |out| == |Join(cs)| &&
      WellFormed(out) && IterUnicodeChars(out).Ok? && |IterUnicodeChars(out).value| == |cs|
  {
    ConvertedOfJoin(m, cs);
    var ims := Images(m, cs);
    JoinLengthsAgree(ims, cs);
    JoinIsWellFormed(ims);
    IterOfJoin(ims, 0);
  }

  /** Both table conversions keep the shape of well-formed input. */
  lemma ConversionKeepsShape(cs: seq<Bytes>)
    requires forall n :: 0 <= n < |cs| ==> WellFormedChar(cs[n])
    ensures var out := Join(Images(HiraToKata(), cs));
      ToKatakana(Join(cs)) == Ok(out) && |out| == |Join(cs)| && WellFormed(out)
    ensures var out := Join(Images(KataToHira(), cs));
      ToHiragana(Join(cs)) == Ok(out) && |out| == |Join(cs)| && WellFormed(out)
  {
    TableMapsKeepCharShape();
    ConvertKeepsShape(HiraToKata(), cs);
    ConvertKeepsShape(KataToHira(), cs);
  }

  /** Converting twice with a map whose images are fixed points is converting once. */
  lemma ConvertIdempotent(m: KanaMap, cs: seq<Bytes>)
    requires KeepsCharShape(m) && ImagesFixed(m)
    requires forall n :: 0 <= n < |cs| ==> WellFormedChar(cs[n])
    ensures Converted(m, Join(cs)).Ok?
    ensures Converted(m, Converted(m, Join(cs)).value) == Converted(m, Join(cs))
  {
    ConvertedOfJoin(m, cs);
    var ims := Images(m, cs);
    ConvertedOfJoin(m, ims);
    assert Images(m, ims) == ims;
  }

  /** On well-formed input, converting to katakana twice is converting once. */
  lemma ToKatakanaIdempotent(cs: seq<Bytes>)
    requires forall n :: 0 <= n < |cs| ==> WellFormedChar(cs[n])
    ensures ToKatakana(Join(cs)).Ok?
    ensures ToKatakana(ToKatakana(Join(cs)).value) == ToKatakana(Join(cs))
  {
    TablesPaired();
    PairedMapsKeepCharShape(HiraganaCodepoints, KatakanaCodepoints);
    ForwardImagesFixed(HiraganaCodepoints, KatakanaCodepoints);
    ConvertIdempotent(HiraToKata(), cs);
  }

  /**
   * On malformed input a conversion is not idempotent, whatever three-byte
   * keys the map has: a truncated three-byte sequence before ASCII yields
   * overlapping substrings, so every pass duplicates bytes.
   */
  lemma ConvertGrowsMalformedInput(m: KanaMap)
    requires forall k :: k in m ==> |k| == 3 && WellFormedChar(k)
    ensures Converted(m, [0xE3, 0x41]) == Ok([0xE3, 0x41, 0x41])
    ensures Converted(m, [0xE3, 0x41, 0x41]) == Ok([0xE3, 0x41, 0x41, 0x41, 0x41])
  {
    ConvertOnceMalformed(m, [0xE3, 0x41]);
    ConvertTwiceMalformed(m, [0xE3, 0x41, 0x41]);
  }

  /** The walk of `s` only yields substrings that are not keys, so nothing is replaced. */
  lemma ConvertedWithoutKeys(m: KanaMap, s: Bytes, vs: seq<CharView>)
    requires IterUnicodeChars(s) == Ok(vs)
    requires forall n :: 0 <= n < |vs| ==> vs[n].ch !in m
    ensures Converted(m, s) == Ok(Join(ViewChars(vs)))
  {
    assert Images(m, ViewChars(vs)) == ViewChars(vs);
  }

  lemma JoinOfTwo(a: Bytes, b: Bytes)
    ensures Join([a, b]) == a + b
  {
    assert [a, b][1..] == [b] && [b][1..] == [];
    assert Join([b]) == b + Join([]);
  }

  lemma JoinOfThree(a: Bytes, b: Bytes, c: Bytes)
    ensures Join([a, b, c]) == a + b + c
  {
    assert [a, b, c][1..] == [b, c];
    JoinOfTwo(b, c);
  }

  lemma ViewCharsOfThree(vs: seq<CharView>)
    requires |vs| == 3
    ensures ViewChars(vs) == [vs[0].ch, vs[1].ch, vs[2].ch]
  {
  }

  lemma ConvertOnceMalformed(m: KanaMap, s: Bytes)
    requires forall k :: k in m ==> |k| == 3 && WellFormedChar(k)
    requires s == [0xE3, 0x41]
    ensures Converted(m, s) == Ok([0xE3, 0x41, 0x41])
  {
    WalkOfTruncated(s);
    var vs := [CharView(0, s), CharView(1, [0x41])];
    ConvertedWithoutKeys(m, s, vs);
    assert ViewChars(vs) == [s, [0x41]];
    JoinOfTwo(s, [0x41]);
    assert s + [0x41] == [0xE3, 0x41, 0x41];
  }

  lemma ConvertTwiceMalformed(m: KanaMap, t: Bytes)
    requires forall k :: k in m ==> |k| == 3 && WellFormedChar(k)
    requires t == [0xE3, 0x41, 0x41]
    ensures Converted(m, t) == Ok([0xE3, 0x41, 0x41, 0x41, 0x41])
  {
    WalkOfTruncatedThenAscii();
    var vs := [CharView(0, t), CharView(1, [0x41]), CharView(2, [0x41])];
    assert !IsContinuation(t[1]);
    assert t !in m && [0x41] !in m;
    ConvertedWithoutKeys(m, t, vs);
    ViewCharsOfThree(vs);
    JoinOfThree(t, [0x41], [0x41]);
    assert t + [0x41] + [0x41] == [0xE3, 0x41, 0x41, 0x41, 0x41];
  }

  lemma WalkOfTruncatedThenAscii()
    ensures IterUnicodeChars([0xE3, 0x41, 0x41])
         == Ok([CharView(0, [0xE3, 0x41, 0x41]), CharView(1, [0x41]), CharView(2, [0x41])])
  {
    var t: Bytes := [0xE3, 0x41, 0x41];
    var u: Bytes := [0x41, 0x41];
    assert t[1..] == u && u[1..] == [0x41];
    OneAsciiByte(0x41, 2);
    IterYieldsLead(u, 1);
    assert ByteLen(u[0]) == 1 && Substr(u, 0, 1) == [0x41];
    var tail := [CharView(1, [0x41]), CharView(2, [0x41])];
    assert [CharView(1, [0x41])] + [CharView(2, [0x41])] == tail;
    assert Iter(u, 1) == Ok(tail);
    IterYieldsLead(t, 0);
    assert ByteLen(t[0]) == 3 && Substr(t, 0, 3) == t;
    assert [CharView(0, t)] + tail == [CharView(0, t), CharView(1, [0x41]), CharView(2, [0x41])];
    assert IterUnicodeChars(t) == Iter(t, 0);
  }

  /** `hiragana_to_katakana` is therefore not idempotent on malformed input. */
  lemma ToKatakanaGrowsMalformedInput()
    ensures ToKatakana([0xE3, 0x41]) == Ok([0xE3, 0x41, 0x41])
    ensures ToKatakana(ToKatakana([0xE3, 0x41]).value) != ToKatakana([0xE3, 0x41])
  {
    TablesPaired();
    forall k | k in HiraToKata() ensures |k| == 3 && WellFormedChar(k) {
      PairedImagesAreChars(HiraganaCodepoints, KatakanaCodepoints, k);
    }
    ConvertGrowsMalformedInput(HiraToKata());
  }

  /**
   * Converting there and back gives the input again when every codepoint is
   * a key of the forward map or is left alone by the backward one.
   */
  lemma ConvertRoundTrip(there: KanaMap, back: KanaMap, cs: seq<Bytes>)
    requires KeepsCharShape(there) && Inverts(there, back)
    requires forall n :: 0 <= n < |cs| ==> WellFormedChar(cs[n])
    requires forall n :: 0 <= n < |cs| ==> cs[n] in there || cs[n] !in back
    ensures Converted(there, Join(cs)).Ok?
    ensures Converted(back, Converted(there, Join(cs)).value) == Ok(Join(cs))
  {
    ConvertedOfJoin(there, cs);
    var ims := Images(there, cs);
    ConvertedOfJoin(back, ims);
    assert Images(back, ims) == cs;
  }

  /**
   * Converting to katakana and back gives the input again, when no codepoint
   * of it is a katakana of the table other than one that is also a hiragana
   * key (U+309A).
   */
  lemma RoundTrip(cs: seq<Bytes>)
    requires forall n :: 0 <= n < |cs| ==> WellFormedChar(cs[n])
    requires forall n :: 0 <= n < |cs| ==> cs[n] in HiraToKata() || cs[n] !in KataToHira()
    ensures ToKatakana(Join(cs)).Ok?
    ensures ToHiragana(ToKatakana(Join(cs)).value) == Ok(Join(cs))
  {
    TableMapsKeepCharShape();
    MapsAreMutualInverses();
    ConvertRoundTrip(HiraToKata(), KataToHira(), cs);
  }

  /** A code point of the hiragana table converts to its shift, one of the katakana table to its unshift. */
  lemma PairedCodepointImages(h: seq<int>, k: seq<int>, cp: int)
    requires Paired(h, k)
    ensures cp in h ==> ThreeByte(cp) && ThreeByte(KanaShift(cp))
    ensures cp in h ==> Image(ForwardMap(h, k), Encode3(cp)) == Encode3(KanaShift(cp))
    ensures cp in k ==> ThreeByte(cp) && ThreeByte(KanaUnshift(cp))
    ensures cp in k ==> Image(BackwardMap(h, k), Encode3(cp)) == Encode3(KanaUnshift(cp))
  {
    if cp in h {
      var p :| 0 <= p < |h| && h[p] == cp;
      assert Encode3(cp) in KeysOf(h);
      Decode3Encode3(cp);
    }
    if cp in k {
      var p :| 0 <= p < |k| && k[p] == cp;
      KanaUnshiftShift(h[p]);
      assert Encode3(cp) in KeysOf(k);
      Decode3Encode3(cp);
    }
  }

  /** Encoded code points of the hiragana table convert to the encoding of their shifts. */
  lemma ForwardOfTableCodepoints(h: seq<int>, k: seq<int>, cps: seq<int>, kcps: seq<int>)
    requires Paired(h, k)
    requires forall n :: 0 <= n < |cps| ==> cps[n] in h
    requires |kcps| == |cps| && forall n :: 0 <= n < |cps| ==> kcps[n] == KanaShift(cps[n])
    ensures forall n :: 0 <= n < |cps| ==> ThreeByte(cps[n]) && ThreeByte(kcps[n])
    ensures Converted(ForwardMap(h, k), EncodeAll(cps)) == Ok(EncodeAll(kcps))
  {
    forall n | 0 <= n < |cps| ensures ThreeByte(cps[n]) && ThreeByte(kcps[n]) {
      PairedCodepointImages(h, k, cps[n]);
    }
    var cs := Encoded(cps);
    ConvertedOfJoin(ForwardMap(h, k), cs);
    forall n | 0 <= n < |cps| ensures Image(ForwardMap(h, k), cs[n]) == Encoded(kcps)[n] {
      PairedCodepointImages(h, k, cps[n]);
    }
    assert Images(ForwardMap(h, k), cs) == Encoded(kcps);
  }

  /** Encoded code points of the katakana table convert to the encoding of their unshifts. */
  lemma BackwardOfTableCodepoints(h: seq<int>, k: seq<int>, cps: seq<int>, hcps: seq<int>)
    requires Paired(h, k)
    requires forall n :: 0 <= n < |cps| ==> cps[n] in k
    requires |hcps| == |cps| && forall n :: 0 <= n < |cps| ==> hcps[n] == KanaUnshift(cps[n])
    ensures forall n :: 0 <= n < |cps| ==> ThreeByte(cps[n]) && ThreeByte(hcps[n])
    ensures Converted(BackwardMap(h, k), EncodeAll(cps)) == Ok(EncodeAll(hcps))
  {
    forall n | 0 <= n < |cps| ensures ThreeByte(cps[n]) && ThreeByte(hcps[n]) {
      PairedCodepointImages(h, k, cps[n]);
    }
    var cs := Encoded(cps);
    ConvertedOfJoin(BackwardMap(h, k), cs);
    forall n | 0 <= n < |cps| ensures Image(BackwardMap(h, k), cs[n]) == Encoded(hcps)[n] {
      PairedCodepointImages(h, k, cps[n]);
    }
    assert Images(BackwardMap(h, k), cs) == Encoded(hcps);
  }

  /** Encoded hiragana of the table convert to their katakana, code point by code point. */
  lemma ToKatakanaOfTableHiragana(cps: seq<int>, kcps: seq<int>)
    requires forall n :: 0 <= n < |cps| ==> cps[n] in HiraganaCodepoints
    requires |kcps| == |cps| && forall n :: 0 <= n < |cps| ==> kcps[n] == KanaShift(cps[n])
    ensures forall n :: 0 <= n < |cps| ==> ThreeByte(cps[n]) && ThreeByte(kcps[n])
    ensures ToKatakana(EncodeAll(cps)) == Ok(EncodeAll(kcps))
  {
    TablesPaired();
    ForwardOfTableCodepoints(HiraganaCodepoints, KatakanaCodepoints, cps, kcps);
  }

  /** Encoded katakana of the table convert to their hiragana, code point by code point. */
  lemma ToHiraganaOfTableKatakana(cps: seq<int>, hcps: seq<int>)
    requires forall n :: 0 <= n < |cps| ==> cps[n] in KatakanaCodepoints
    requires |hcps| == |cps| && forall n :: 0 <= n < |cps| ==> hcps[n] == KanaUnshift(cps[n])
    ensures forall n :: 0 <= n < |cps| ==> ThreeByte(cps[n]) && ThreeByte(hcps[n])
    ensures ToHiragana(EncodeAll(cps)) == Ok(EncodeAll(hcps))
  {
    TablesPaired();
    BackwardOfTableCodepoints(HiraganaCodepoints, KatakanaCodepoints, cps, hcps);
  }

  /** あいうえお becomes アイウエオ. */
  lemma ExampleToKatakana()
    ensures ToKatakana(EncodeAll([0x3042, 0x3044, 0x3046, 0x3048, 0x304A]))
         == Ok(EncodeAll([0x30A2, 0x30A4, 0x30A6, 0x30A8, 0x30AA]))
  {
    assert HiraganaCodepoints[1] == 0x3042 && HiraganaCodepoints[3] == 0x3044;
    assert HiraganaCodepoints[5] == 0x3046 && HiraganaCodepoints[7] == 0x3048;
    assert HiraganaCodepoints[9] == 0x304A;
    ToKatakanaOfTableHiragana([0x3042, 0x3044, 0x3046, 0x3048, 0x304A], [0x30A2, 0x30A4, 0x30A6, 0x30A8, 0x30AA]);
  }

  /** イマリ becomes いまり. */
  lemma ExampleToHiragana()
    ensures ToHiragana(EncodeAll([0x30A4, 0x30DE, 0x30EA])) == Ok(EncodeAll([0x3044, 0x307E, 0x308A]))
  {
    assert KatakanaCodepoints[3] == 0x30A4;
    assert KatakanaCodepoints[71] == 0x30DE;
    assert KatakanaCodepoints[83] == 0x30EA;
    ToHiraganaOfTableKatakana([0x30A4, 0x30DE, 0x30EA], [0x3044, 0x307E, 0x308A]);
  }
}
