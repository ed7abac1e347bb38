/**
 * The `hiragana_chars` and `katakana_chars` tables of src/kana_conv.h. Each
 * string literal is written here as the code points it is made of, in order,
 * and the table's bytes are their UTF-8 encoding. Both tables hold 98 code
 * points; か, き, く, け, こ and the combining semi-voiced mark U+309A occur
 * more than once, because か゚ and the like are written as two code points.
 */
module KanaTables {
  import opened ByteStrings
  import opened Utf8Walk

  /** A code point that UTF-8 writes in three bytes. */
  predicate ThreeByte(cp: int) {
    0x800 <= cp < 0x10000
  }

  /** The three-byte UTF-8 encoding of section 3 of RFC 3629. */
  function Encode3(cp: int): (c: Bytes)
    requires ThreeByte(cp)
    ensures |c| == 3 && WellFormedChar(c)
  {
    var c := [0xE0 + cp / 0x1000, 0x80 + cp / 0x40 % 0x40, 0x80 + cp % 0x40];
    assert ByteLen(c[0]) == 3;
    c
  }

  function Decode3(c: Bytes): int
    requires |c| == 3
  {
    (c[0] as int - 0xE0) * 0x1000 + (c[1] as int - 0x80) * 0x40 + (c[2] as int - 0x80)
  }

  lemma Decode3Encode3(cp: int)
    requires ThreeByte(cp)
    ensures Decode3(Encode3(cp)) == cp
  {
    var q := cp / 0x40;
    assert cp == q * 0x40 + cp % 0x40;
    assert q == (q / 0x40) * 0x40 + q % 0x40;
    assert q / 0x40 == cp / 0x1000;
  }

  /** Different code points have different encodings. */
  lemma Encode3Injective(a: int, b: int)
    requires ThreeByte(a) && ThreeByte(b)
    ensures Encode3(a) == Encode3(b) <==> a == b
  {
    Decode3Encode3(a);
    Decode3Encode3(b);
  }

  /** The encodings of a list of code points, one sequence each. */
  function Encoded(cps: seq<int>): (cs: seq<Bytes>)
    requires forall n :: 0 <= n < |cps| ==> ThreeByte(cps[n])
    ensures |cs| == |cps|
    ensures forall n :: 0 <= n < |cps| ==> cs[n] == Encode3(cps[n]) && WellFormedChar(cs[n])
  {
    seq(|cps|, n requires 0 <= n < |cps| => Encode3(cps[n]))
  }

  /** A string literal made of those code points. */
  function EncodeAll(cps: seq<int>): Bytes
    requires forall n :: 0 <= n < |cps| ==> ThreeByte(cps[n])
  {
    Join(Encoded(cps))
  }

  const Hiragana0: seq<int> := [
    0x3041, 0x3042, 0x3043, 0x3044, 0x3045, 0x3046, 0x3047, 0x3048, 0x3049,
    0x304A, 0x304B, 0x304C, 0x304B, 0x309A, 0x304D, 0x304E, 0x304D, 0x309A,
    0x304F, 0x3050, 0x304F, 0x309A, 0x3051, 0x3052, 0x3051
  ]

  const Hiragana1: seq<int> := [
    0x309A, 0x3053, 0x3054, 0x3053, 0x309A, 0x3055, 0x3056, 0x3057, 0x3058,
    0x3059, 0x305A, 0x305B, 0x305C, 0x305D, 0x305E, 0x305F, 0x3060, 0x3061,
    0x3062, 0x3063, 0x3064, 0x3065, 0x3066, 0x3067, 0x3068
  ]

  const Hiragana2: seq<int> := [
    0x3069, 0x306A, 0x306B, 0x306C, 0x306D, 0x306E, 0x306F, 0x3070, 0x3071,
    0x3072, 0x3073, 0x3074, 0x3075, 0x3076, 0x3077, 0x3078, 0x3079, 0x307A,
    0x307B, 0x307C, 0x307D, 0x307E, 0x307F, 0x3080, 0x3081
  ]

  const Hiragana3: seq<int> := [
    0x3082, 0x3083, 0x3084, 0x3085, 0x3086, 0x3087, 0x3088, 0x3089, 0x308A,
    0x308B, 0x308C, 0x308D, 0x308E, 0x308F, 0x3090, 0x3091, 0x3092, 0x3093,
    0x3094, 0x3095, 0x3096, 0x309D, 0x309E
  ]

  const Katakana0: seq<int> := [
    0x30A1, 0x30A2, 0x30A3, 0x30A4, 0x30A5, 0x30A6, 0x30A7, 0x30A8, 0x30A9,
    0x30AA, 0x30AB, 0x30AC, 0x30AB, 0x309A, 0x30AD, 0x30AE, 0x30AD, 0x309A,
    0x30AF, 0x30B0, 0x30AF, 0x309A, 0x30B1, 0x30B2, 0x30B1
  ]

  const Katakana1: seq<int> := [
    0x309A, 0x30B3, 0x30B4, 0x30B3, 0x309A, 0x30B5, 0x30B6, 0x30B7, 0x30B8,
    0x30B9, 0x30BA, 0x30BB, 0x30BC, 0x30BD, 0x30BE, 0x30BF, 0x30C0, 0x30C1,
    0x30C2, 0x30C3, 0x30C4, 0x30C5, 0x30C6, 0x30C7, 0x30C8
  ]

  const Katakana2: seq<int> := [
    0x30C9, 0x30CA, 0x30CB, 0x30CC, 0x30CD, 0x30CE, 0x30CF, 0x30D0, 0x30D1,
    0x30D2, 0x30D3, 0x30D4, 0x30D5, 0x30D6, 0x30D7, 0x30D8, 0x30D9, 0x30DA,
    0x30DB, 0x30DC, 0x30DD, 0x30DE, 0x30DF, 0x30E0, 0x30E1
  ]

  const Katakana3: seq<int> := [
    0x30E2, 0x30E3, 0x30E4, 0x30E5, 0x30E6, 0x30E7, 0x30E8, 0x30E9, 0x30EA,
    0x30EB, 0x30EC, 0x30ED, 0x30EE, 0x30EF, 0x30F0, 0x30F1, 0x30F2, 0x30F3,
    0x30F4, 0x30F5, 0x30F6, 0x30FD, 0x30FE
  ]

  const HiraganaCodepoints: seq<int> := Hiragana0 + Hiragana1 + Hiragana2 + Hiragana3
  const KatakanaCodepoints: seq<int> := Katakana0 + Katakana1 + Katakana2 + Katakana3

  predicate InHiraganaBlock(cp: int) {
    0x3040 <= cp < 0x30A0
  }

  /**
   * The katakana of a hiragana code point is 0x60 further on; U+309A, which
   * sits in the Hiragana block but is shared by both scripts, stays put.
   */
  function KanaShift(cp: int): int {
    if cp == 0x309A then cp else cp + 0x60
  }

  function KanaUnshift(cp: int): int {
    if cp == 0x309A then cp else cp - 0x60
  }

  lemma KanaUnshiftShift(cp: int)
    requires InHiraganaBlock(cp)
    ensures KanaUnshift(KanaShift(cp)) == cp
    ensures KanaShift(cp) == cp || !InHiraganaBlock(KanaShift(cp))
  {
  }

  /** The two tables agree position by position: each katakana is the shift of its hiragana. */
  predicate Paired(h: seq<int>, k: seq<int>) {
    |h| == |k| && forall n :: 0 <= n < |h| ==> InHiraganaBlock(h[n]) && k[n] == KanaShift(h[n])
  }

  lemma {:induction false} PairedConcat(h1: seq<int>, k1: seq<int>, h2: seq<int>, k2: seq<int>)
    requires Paired(h1, k1) && Paired(h2, k2)
    ensures Paired(h1 + h2, k1 + k2)
  {
    forall n | |h1| <= n < |h1| + |h2|
      ensures (h1 + h2)[n] == h2[n - |h1|] && (k1 + k2)[n] == k2[n - |h1|]
    {
    }
  }

  lemma Paired0()
    ensures Paired(Hiragana0, Katakana0)
  {
  }

  lemma Paired1()
    ensures Paired(Hiragana1, Katakana1)
  {
  }

  lemma Paired2()
    ensures Paired(Hiragana2, Katakana2)
  {
  }

  lemma Paired3()
    ensures Paired(Hiragana3, Katakana3)
  {
  }

  /** The whole tables are paired, 98 code points each. */
  lemma TablesPaired()
    ensures |HiraganaCodepoints| == 98
    ensures Paired(HiraganaCodepoints, KatakanaCodepoints)
  {
    Paired0();
    Paired1();
    Paired2();
    Paired3();
    PairedConcat(Hiragana0, Katakana0, Hiragana1, Katakana1);
    PairedConcat(Hiragana0 + Hiragana1, Katakana0 + Katakana1, Hiragana2, Katakana2);
    PairedConcat(Hiragana0 + Hiragana1 + Hiragana2, Katakana0 + Katakana1 + Katakana2, Hiragana3, Katakana3);
  }

  /** `hiragana_chars`, 294 bytes. */
  function HiraganaChars(): Bytes {
    TablesPaired();
    EncodeAll(HiraganaCodepoints)
  }

  /** `katakana_chars`, 294 bytes. */
  function KatakanaChars(): Bytes {
    TablesPaired();
    EncodeAll(KatakanaCodepoints)
  }
}
