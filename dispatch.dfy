/**
 * gd-tools' entry point (src/main.cpp): the DJB "times 33" hash `djbx33a`,
 * and `take_action`, which picks the tool either from the name the program
 * was called by (`gd-massif ...`) or from its first argument
 * (`gd-tools massif ...`). Both switches compare hashes, never the names
 * themselves; a case label `"name"_h` is `djbx33a` of the label's bytes,
 * which is `Hash(Ascii("name"))` here.
 */
module Dispatch {
  import opened Wrappers
  import opened ByteStrings

  // ---------------------------------------------------------------- djbx33a

  /** The hash is a `uint64_t`: every step wraps modulo 2^64. */
  const Modulus: nat := 0x1_0000_0000_0000_0000

  /**
   * `static_cast<uint64_t>(ch)` of a `char`, which is signed on the targets
   * the tools are built for: a byte from 0x80 up is negative before the cast.
   */
  function CharValue(b: Byte): int {
    if b < 0x80 then b else b - 0x100
  }

  /** One turn of the loop: `acc * 33 + ch`, wrapped. */
  function Step(acc: nat, b: Byte): nat {
    (acc * 33 + CharValue(b)) % Modulus
  }

  /** The accumulator after the first `i` bytes of `s`. */
  function HashUpTo(s: Bytes, i: nat): nat
    requires i <= |s|
  {
    if i == 0 then 5381 else Step(HashUpTo(s, i - 1), s[i - 1])
  }

  /** `djbx33a(s)`, and so also `operator""_h` of a literal with the same bytes. */
  function Hash(s: Bytes): nat {
    HashUpTo(s, |s|)
  }

  /** `djbx33a`: start at 5381 and fold every byte in with `acc * 33 + ch`. */
  method Djbx33a(s: Bytes) returns (acc: nat)
    ensures acc == Hash(s)
  {
    acc := 5381;
    for i := 0 to |s|
      invariant acc == HashUpTo(s, i)
    {
      acc := (acc * 33 + CharValue(s[i])) % Modulus;
    }
  }

  /** The same sum without wrap-around: 5381 * 33^n plus every byte times its power of 33. */
  function Polynomial(s: Bytes, i: nat): int
    requires i <= |s|
  {
    if i == 0 then 5381 else Polynomial(s, i - 1) * 33 + CharValue(s[i - 1])
  }

  /**
   * Wrapping at every step gives what wrapping once at the end would: the
   * hash is the polynomial modulo 2^64, and always fits in 64 bits. The empty
   * string hashes to 5381.
   */
  lemma {:induction false} HashIsPolynomialModulo(s: Bytes, i: nat)
    requires i <= |s|
    ensures HashUpTo(s, i) == Polynomial(s, i) % Modulus
    ensures HashUpTo(s, i) < Modulus
    ensures i == 0 ==> HashUpTo(s, i) == 5381
  {
    if i > 0 {
      HashIsPolynomialModulo(s, i - 1);
      ModuloStep(Polynomial(s, i - 1), CharValue(s[i - 1]));
    }
  }

  /** Reducing the accumulator before the next step changes nothing modulo 2^64. */
  lemma ModuloStep(x: int, c: int)
    ensures ((x % Modulus) * 33 + c) % Modulus == (x * 33 + c) % Modulus
  {
    var q := x / Modulus;
    assert x == q * Modulus + x % Modulus;
    assert x * 33 + c == ((x % Modulus) * 33 + c) + (q * 33) * Modulus;
    AddMultiple((x % Modulus) * 33 + c, q * 33);
  }

  lemma AddMultiple(a: int, k: int)
    ensures (a + k * Modulus) % Modulus == a % Modulus
  {
    var r := a % Modulus;
    var q := a / Modulus;
    assert a + k * Modulus == (q + k) * Modulus + r;
  }

  // ---------------------------------------------------------------- the case labels

  // Each label's hash, a few bytes at a time: these constants are what the
  // compiler computes for the `_h` case labels.

  lemma HashGdAnkisearchPart1(s: Bytes)
    requires s == [103, 100, 45, 97, 110, 107, 105, 115, 101, 97, 114, 99, 104]
    ensures HashUpTo(s, 3) == 193492509
  {
    assert HashUpTo(s, 1) == 177676;
    assert HashUpTo(s, 2) == 5863408;
  }

  lemma HashGdAnkisearchPart2(s: Bytes)
    requires s == [103, 100, 45, 97, 110, 107, 105, 115, 101, 97, 114, 99, 104]
    requires HashUpTo(s, 3) == 193492509
    ensures HashUpTo(s, 6) == 6953540405303
  {
    assert HashUpTo(s, 4) == 6385252894;
    assert HashUpTo(s, 5) == 210713345612;
  }

  lemma HashGdAnkisearchPart3(s: Bytes)
    requires s == [103, 100, 45, 97, 110, 107, 105, 115, 101, 97, 114, 99, 104]
    requires HashUpTo(s, 6) == 6953540405303
    ensures HashUpTo(s, 9) == 249889381545492152
  {
    assert HashUpTo(s, 7) == 229466833375104;
    assert HashUpTo(s, 8) == 7572405501378547;
  }

  lemma HashGdAnkisearchPart4(s: Bytes)
    requires s == [103, 100, 45, 97, 110, 107, 105, 115, 101, 97, 114, 99, 104]
    requires HashUpTo(s, 9) == 249889381545492152
    ensures HashUpTo(s, 12) == 15157084777509490542
  {
    assert HashUpTo(s, 10) == 8246349591001241113;
    assert HashUpTo(s, 11) == 13875119471107234219;
  }

  lemma HashGdAnkisearchPart5(s: Bytes)
    requires s == [103, 100, 45, 97, 110, 107, 105, 115, 101, 97, 114, 99, 104]
    requires HashUpTo(s, 12) == 15157084777509490542
    ensures HashUpTo(s, 13) == 2121707667655294358
  {
  }

  lemma HashGdAnkisearch()
    ensures Hash(Ascii("gd-ankisearch")) == 2121707667655294358
  {
    var b := Ascii("gd-ankisearch");
    assert b == [103, 100, 45, 97, 110, 107, 105, 115, 101, 97, 114, 99, 104];
    HashGdAnkisearchPart1(b);
    HashGdAnkisearchPart2(b);
    HashGdAnkisearchPart3(b);
    HashGdAnkisearchPart4(b);
    HashGdAnkisearchPart5(b);
  }

  lemma HashGdEchoPart1(s: Bytes)
    requires s == [103, 100, 45, 101, 99, 104, 111]
    ensures HashUpTo(s, 3) == 193492509
  {
    assert HashUpTo(s, 1) == 177676;
    assert HashUpTo(s, 2) == 5863408;
  }

  lemma HashGdEchoPart2(s: Bytes)
    requires s == [103, 100, 45, 101, 99, 104, 111]
    requires HashUpTo(s, 3) == 193492509
    ensures HashUpTo(s, 6) == 6953540409293
  {
    assert HashUpTo(s, 4) == 6385252898;
    assert HashUpTo(s, 5) == 210713345733;
  }

  lemma HashGdEchoPart3(s: Bytes)
    requires s == [103, 100, 45, 101, 99, 104, 111]
    requires HashUpTo(s, 6) == 6953540409293
    ensures HashUpTo(s, 7) == 229466833506780
  {
  }

  lemma HashGdEcho()
    ensures Hash(Ascii("gd-echo")) == 229466833506780
  {
    var b := Ascii("gd-echo");
    assert b == [103, 100, 45, 101, 99, 104, 111];
    HashGdEchoPart1(b);
    HashGdEchoPart2(b);
    HashGdEchoPart3(b);
  }

  lemma HashGdMassifPart1(s: Bytes)
    requires s == [103, 100, 45, 109, 97, 115, 115, 105, 102]
    ensures HashUpTo(s, 3) == 193492509
  {
    assert HashUpTo(s, 1) == 177676;
    assert HashUpTo(s, 2) == 5863408;
  }

  lemma HashGdMassifPart2(s: Bytes)
    requires s == [103, 100, 45, 109, 97, 115, 115, 105, 102]
    requires HashUpTo(s, 3) == 193492509
    ensures HashUpTo(s, 6) == 6953540417950
  {
    assert HashUpTo(s, 4) == 6385252906;
    assert HashUpTo(s, 5) == 210713345995;
  }

  lemma HashGdMassifPart3(s: Bytes)
    requires s == [103, 100, 45, 109, 97, 115, 115, 105, 102]
    requires HashUpTo(s, 6) == 6953540417950
    ensures HashUpTo(s, 9) == 249889381999997952
  {
    assert HashUpTo(s, 7) == 229466833792465;
    assert HashUpTo(s, 8) == 7572405515151450;
  }

  lemma HashGdMassif()
    ensures Hash(Ascii("gd-massif")) == 249889381999997952
  {
    var b := Ascii("gd-massif");
    assert b == [103, 100, 45, 109, 97, 115, 115, 105, 102];
    HashGdMassifPart1(b);
    HashGdMassifPart2(b);
    HashGdMassifPart3(b);
  }

  lemma HashGdImagesPart1(s: Bytes)
    requires s == [103, 100, 45, 105, 109, 97, 103, 101, 115]
    ensures HashUpTo(s, 3) == 193492509
  {
    assert HashUpTo(s, 1) == 177676;
    assert HashUpTo(s, 2) == 5863408;
  }

  lemma HashGdImagesPart2(s: Bytes)
    requires s == [103, 100, 45, 105, 109, 97, 103, 101, 115]
    requires HashUpTo(s, 3) == 193492509
    ensures HashUpTo(s, 6) == 6953540413972
  {
    assert HashUpTo(s, 4) == 6385252902;
    assert HashUpTo(s, 5) == 210713345875;
  }

  lemma HashGdImagesPart3(s: Bytes)
    requires s == [103, 100, 45, 105, 109, 97, 103, 101, 115]
    requires HashUpTo(s, 6) == 6953540413972
    ensures HashUpTo(s, 9) == 249889381857027379
  {
    assert HashUpTo(s, 7) == 229466833661179;
    assert HashUpTo(s, 8) == 7572405510819008;
  }

  lemma HashGdImages()
    ensures Hash(Ascii("gd-images")) == 249889381857027379
  {
    var b := Ascii("gd-images");
    assert b == [103, 100, 45, 105, 109, 97, 103, 101, 115];
    HashGdImagesPart1(b);
    HashGdImagesPart2(b);
    HashGdImagesPart3(b);
  }

  lemma HashGdTranslatePart1(s: Bytes)
    requires s == [103, 100, 45, 116, 114, 97, 110, 115, 108, 97, 116, 101]
    ensures HashUpTo(s, 3) == 193492509
  {
    assert HashUpTo(s, 1) == 177676;
    assert HashUpTo(s, 2) == 5863408;
  }

  lemma HashGdTranslatePart2(s: Bytes)
    requires s == [103, 100, 45, 116, 114, 97, 110, 115, 108, 97, 116, 101]
    requires HashUpTo(s, 3) == 193492509
    ensures HashUpTo(s, 6) == 6953540426116
  {
    assert HashUpTo(s, 4) == 6385252913;
    assert HashUpTo(s, 5) == 210713346243;
  }

  lemma HashGdTranslatePart3(s: Bytes)
    requires s == [103, 100, 45, 116, 114, 97, 110, 115, 108, 97, 116, 101]
    requires HashUpTo(s, 6) == 6953540426116
    ensures HashUpTo(s, 9) == 249889382293454385
  {
    assert HashUpTo(s, 7) == 229466834061938;
    assert HashUpTo(s, 8) == 7572405524044069;
  }

  lemma HashGdTranslatePart4(s: Bytes)
    requires s == [103, 100, 45, 116, 114, 97, 110, 115, 108, 97, 116, 101]
    requires HashUpTo(s, 9) == 249889382293454385
    ensures HashUpTo(s, 12) == 15157111657028257931
  {
    assert HashUpTo(s, 10) == 8246349615683994802;
    assert HashUpTo(s, 11) == 13875120285638105958;
  }

  lemma HashGdTranslate()
    ensures Hash(Ascii("gd-translate")) == 15157111657028257931
  {
    var b := Ascii("gd-translate");
    assert b == [103, 100, 45, 116, 114, 97, 110, 115, 108, 97, 116, 101];
    HashGdTranslatePart1(b);
    HashGdTranslatePart2(b);
    HashGdTranslatePart3(b);
    HashGdTranslatePart4(b);
  }

  lemma HashGdMarisaPart1(s: Bytes)
    requires s == [103, 100, 45, 109, 97, 114, 105, 115, 97]
    ensures HashUpTo(s, 3) == 193492509
  {
    assert HashUpTo(s, 1) == 177676;
    assert HashUpTo(s, 2) == 5863408;
  }

  lemma HashGdMarisaPart2(s: Bytes)
    requires s == [103, 100, 45, 109, 97, 114, 105, 115, 97]
    requires HashUpTo(s, 3) == 193492509
    ensures HashUpTo(s, 6) == 6953540417949
  {
    assert HashUpTo(s, 4) == 6385252906;
    assert HashUpTo(s, 5) == 210713345995;
  }

  lemma HashGdMarisaPart3(s: Bytes)
    requires s == [103, 100, 45, 109, 97, 114, 105, 115, 97]
    requires HashUpTo(s, 6) == 6953540417949
    ensures HashUpTo(s, 9) == 249889381999951450
  {
    assert HashUpTo(s, 7) == 229466833792422;
    assert HashUpTo(s, 8) == 7572405515150041;
  }

  lemma HashGdMarisa()
    ensures Hash(Ascii("gd-marisa")) == 249889381999951450
  {
    var b := Ascii("gd-marisa");
    assert b == [103, 100, 45, 109, 97, 114, 105, 115, 97];
    HashGdMarisaPart1(b);
    HashGdMarisaPart2(b);
    HashGdMarisaPart3(b);
  }

  lemma HashGdMecabPart1(s: Bytes)
    requires s == [103, 100, 45, 109, 101, 99, 97, 98]
    ensures HashUpTo(s, 3) == 193492509
  {
    assert HashUpTo(s, 1) == 177676;
    assert HashUpTo(s, 2) == 5863408;
  }

  lemma HashGdMecabPart2(s: Bytes)
    requires s == [103, 100, 45, 109, 101, 99, 97, 98]
    requires HashUpTo(s, 3) == 193492509
    ensures HashUpTo(s, 6) == 6953540418066
  {
    assert HashUpTo(s, 4) == 6385252906;
    assert HashUpTo(s, 5) == 210713345999;
  }

  lemma HashGdMecabPart3(s: Bytes)
    requires s == [103, 100, 45, 109, 101, 99, 97, 98]
    requires HashUpTo(s, 6) == 6953540418066
    ensures HashUpTo(s, 8) == 7572405515277173
  {
    assert HashUpTo(s, 7) == 229466833796275;
  }

  lemma HashGdMecab()
    ensures Hash(Ascii("gd-mecab")) == 7572405515277173
  {
    var b := Ascii("gd-mecab");
    assert b == [103, 100, 45, 109, 101, 99, 97, 98];
    HashGdMecabPart1(b);
    HashGdMecabPart2(b);
    HashGdMecabPart3(b);
  }

  lemma HashAnkisearchCommandPart1(s: Bytes)
    requires s == [97, 110, 107, 105, 115, 101, 97, 114, 99, 104]
    ensures HashUpTo(s, 3) == 193486367
  {
    assert HashUpTo(s, 1) == 177670;
    assert HashUpTo(s, 2) == 5863220;
  }

  lemma HashAnkisearchCommandPart2(s: Bytes)
    requires s == [97, 110, 107, 105, 115, 101, 97, 114, 99, 104]
    requires HashUpTo(s, 3) == 193486367
    ensures HashUpTo(s, 6) == 6953319689120
  {
    assert HashUpTo(s, 4) == 6385050216;
    assert HashUpTo(s, 5) == 210706657243;
  }

  lemma HashAnkisearchCommandPart3(s: Bytes)
    requires s == [97, 110, 107, 105, 115, 101, 97, 114, 99, 104]
    requires HashUpTo(s, 6) == 6953319689120
    ensures HashUpTo(s, 9) == 249881449668014934
  {
    assert HashUpTo(s, 7) == 229459549741057;
    assert HashUpTo(s, 8) == 7572165141454995;
  }

  lemma HashAnkisearchCommandPart4(s: Bytes)
    requires s == [97, 110, 107, 105, 115, 101, 97, 114, 99, 104]
    requires HashUpTo(s, 9) == 249881449668014934
    ensures HashUpTo(s, 10) == 8246087839044492926
  {
  }

  lemma HashAnkisearchCommand()
    ensures Hash(Ascii("ankisearch")) == 8246087839044492926
  {
    var b := Ascii("ankisearch");
    assert b == [97, 110, 107, 105, 115, 101, 97, 114, 99, 104];
    HashAnkisearchCommandPart1(b);
    HashAnkisearchCommandPart2(b);
    HashAnkisearchCommandPart3(b);
    HashAnkisearchCommandPart4(b);
  }

  lemma HashEchoCommandPart1(s: Bytes)
    requires s == [101, 99, 104, 111]
    ensures HashUpTo(s, 3) == 193490357
  {
    assert HashUpTo(s, 1) == 177674;
    assert HashUpTo(s, 2) == 5863341;
  }

  lemma HashEchoCommandPart2(s: Bytes)
    requires s == [101, 99, 104, 111]
    requires HashUpTo(s, 3) == 193490357
    ensures HashUpTo(s, 4) == 6385181892
  {
  }

  lemma HashEchoCommand()
    ensures Hash(Ascii("echo")) == 6385181892
  {
    var b := Ascii("echo");
    assert b == [101, 99, 104, 111];
    HashEchoCommandPart1(b);
    HashEchoCommandPart2(b);
  }

  lemma HashMassifCommandPart1(s: Bytes)
    requires s == [109, 97, 115, 115, 105, 102]
    ensures HashUpTo(s, 3) == 193499014
  {
    assert HashUpTo(s, 1) == 177682;
    assert HashUpTo(s, 2) == 5863603;
  }

  lemma HashMassifCommandPart2(s: Bytes)
    requires s == [109, 97, 115, 115, 105, 102]
    requires HashUpTo(s, 3) == 193499014
    ensures HashUpTo(s, 6) == 6953774194920
  {
    assert HashUpTo(s, 4) == 6385467577;
    assert HashUpTo(s, 5) == 210720430146;
  }

  lemma HashMassifCommand()
    ensures Hash(Ascii("massif")) == 6953774194920
  {
    var b := Ascii("massif");
    assert b == [109, 97, 115, 115, 105, 102];
    HashMassifCommandPart1(b);
    HashMassifCommandPart2(b);
  }

  lemma HashImagesCommandPart1(s: Bytes)
    requires s == [105, 109, 97, 103, 101, 115]
    ensures HashUpTo(s, 3) == 193495036
  {
    assert HashUpTo(s, 1) == 177678;
    assert HashUpTo(s, 2) == 5863483;
  }

  lemma HashImagesCommandPart2(s: Bytes)
    requires s == [105, 109, 97, 103, 101, 115]
    requires HashUpTo(s, 3) == 193495036
    ensures HashUpTo(s, 6) == 6953631224347
  {
    assert HashUpTo(s, 4) == 6385336291;
    assert HashUpTo(s, 5) == 210716097704;
  }

  lemma HashImagesCommand()
    ensures Hash(Ascii("images")) == 6953631224347
  {
    var b := Ascii("images");
    assert b == [105, 109, 97, 103, 101, 115];
    HashImagesCommandPart1(b);
    HashImagesCommandPart2(b);
  }

  lemma HashTranslateCommandPart1(s: Bytes)
    requires s == [116, 114, 97, 110, 115, 108, 97, 116, 101]
    ensures HashUpTo(s, 3) == 193507180
  {
    assert HashUpTo(s, 1) == 177689;
    assert HashUpTo(s, 2) == 5863851;
  }

  lemma HashTranslateCommandPart2(s: Bytes)
    requires s == [116, 114, 97, 110, 115, 108, 97, 116, 101]
    requires HashUpTo(s, 3) == 193507180
    ensures HashUpTo(s, 6) == 6954067651353
  {
    assert HashUpTo(s, 4) == 6385737050;
    assert HashUpTo(s, 5) == 210729322765;
  }

  lemma HashTranslateCommandPart3(s: Bytes)
    requires s == [116, 114, 97, 110, 115, 108, 97, 116, 101]
    requires HashUpTo(s, 6) == 6954067651353
    ensures HashUpTo(s, 9) == 249908329186782323
  {
    assert HashUpTo(s, 7) == 229484232494746;
    assert HashUpTo(s, 8) == 7572979672326734;
  }

  lemma HashTranslateCommand()
    ensures Hash(Ascii("translate")) == 249908329186782323
  {
    var b := Ascii("translate");
    assert b == [116, 114, 97, 110, 115, 108, 97, 116, 101];
    HashTranslateCommandPart1(b);
    HashTranslateCommandPart2(b);
    HashTranslateCommandPart3(b);
  }

  lemma HashMarisaCommandPart1(s: Bytes)
    requires s == [109, 97, 114, 105, 115, 97]
    ensures HashUpTo(s, 3) == 193499013
  {
    assert HashUpTo(s, 1) == 177682;
    assert HashUpTo(s, 2) == 5863603;
  }

  lemma HashMarisaCommandPart2(s: Bytes)
    requires s == [109, 97, 114, 105, 115, 97]
    requires HashUpTo(s, 3) == 193499013
    ensures HashUpTo(s, 6) == 6953774148418
  {
    assert HashUpTo(s, 4) == 6385467534;
    assert HashUpTo(s, 5) == 210720428737;
  }

  lemma HashMarisaCommand()
    ensures Hash(Ascii("marisa")) == 6953774148418
  {
    var b := Ascii("marisa");
    assert b == [109, 97, 114, 105, 115, 97];
    HashMarisaCommandPart1(b);
    HashMarisaCommandPart2(b);
  }

  lemma HashMecabCommandPart1(s: Bytes)
    requires s == [109, 101, 99, 97, 98]
    ensures HashUpTo(s, 3) == 193499130
  {
    assert HashUpTo(s, 1) == 177682;
    assert HashUpTo(s, 2) == 5863607;
  }

  lemma HashMecabCommandPart2(s: Bytes)
    requires s == [109, 101, 99, 97, 98]
    requires HashUpTo(s, 3) == 193499130
    ensures HashUpTo(s, 5) == 210720555869
  {
    assert HashUpTo(s, 4) == 6385471387;
  }

  lemma HashMecabCommand()
    ensures Hash(Ascii("mecab")) == 210720555869
  {
    var b := Ascii("mecab");
    assert b == [109, 101, 99, 97, 98];
    HashMecabCommandPart1(b);
    HashMecabCommandPart2(b);
  }

  lemma HashGdToolsPart1(s: Bytes)
    requires s == [103, 100, 45, 116, 111, 111, 108, 115]
    ensures HashUpTo(s, 3) == 193492509
  {
    assert HashUpTo(s, 1) == 177676;
    assert HashUpTo(s, 2) == 5863408;
  }

  lemma HashGdToolsPart2(s: Bytes)
    requires s == [103, 100, 45, 116, 111, 111, 108, 115]
    requires HashUpTo(s, 3) == 193492509
    ensures HashUpTo(s, 6) == 6953540426031
  {
    assert HashUpTo(s, 4) == 6385252913;
    assert HashUpTo(s, 5) == 210713346240;
  }

  lemma HashGdToolsPart3(s: Bytes)
    requires s == [103, 100, 45, 116, 111, 111, 108, 115]
    requires HashUpTo(s, 6) == 6953540426031
    ensures HashUpTo(s, 8) == 7572405523951438
  {
    assert HashUpTo(s, 7) == 229466834059131;
  }

  lemma HashGdTools()
    ensures Hash(Ascii("gd-tools")) == 7572405523951438
  {
    var b := Ascii("gd-tools");
    assert b == [103, 100, 45, 116, 111, 111, 108, 115];
    HashGdToolsPart1(b);
    HashGdToolsPart2(b);
    HashGdToolsPart3(b);
  }


  // ---------------------------------------------------------------- take_action

  /** The seven tools a call can reach. */
  datatype Action = AnkiSearch | StrokeOrder | Massif | Images | Translate | MarisaSplit | MecabSplit

  /** What `take_action` does: run a tool on the remaining arguments, or print help for the program name. */
  datatype Outcome = Run(action: Action, rest: seq<Bytes>) | PrintHelp(programName: Bytes)

  /** The tools in the order of both switches; "echo" is the stroke order tool. */
  const Actions: seq<Action> := [AnkiSearch, StrokeOrder, Massif, Images, Translate, MarisaSplit, MecabSplit]

  /** The labels of the switch on the program name. */
  const ProgramNames: seq<Bytes> := [Ascii("gd-ankisearch"), Ascii("gd-echo"), Ascii("gd-massif"),
    Ascii("gd-images"), Ascii("gd-translate"), Ascii("gd-marisa"), Ascii("gd-mecab")]

  /** The labels of the switch on the first argument. */
  const Commands: seq<Bytes> := [Ascii("ankisearch"), Ascii("echo"), Ascii("massif"),
    Ascii("images"), Ascii("translate"), Ascii("marisa"), Ascii("mecab")]

  /** What the compiler makes of `"gd-ankisearch"_h` and the other program name labels. */
  const ProgramNameHashes: seq<nat> := [2121707667655294358, 229466833506780, 249889381999997952,
    249889381857027379, 15157111657028257931, 249889381999951450, 7572405515277173]

  /** What the compiler makes of `"ankisearch"_h` and the other command labels. */
  const CommandHashes: seq<nat> := [8246087839044492926, 6385181892, 6953774194920,
    6953631224347, 249908329186782323, 6953774148418, 210720555869]

  /**
   * The case label constants are the hashes of the names, no two labels of
   * a switch share a hash (the C++ compiler insists on it), and "gd-tools",
   * the name of the multi-call program, hashes to no program name label.
   */
  lemma LabelHashes()
    ensures |ProgramNames| == |ProgramNameHashes| == |Commands| == |CommandHashes| == |Actions|
    ensures forall k :: 0 <= k < |ProgramNames| ==> Hash(ProgramNames[k]) == ProgramNameHashes[k]
    ensures forall k :: 0 <= k < |Commands| ==> Hash(Commands[k]) == CommandHashes[k]
    ensures forall i, j :: 0 <= i < j < |ProgramNameHashes| ==> ProgramNameHashes[i] != ProgramNameHashes[j]
    ensures forall i, j :: 0 <= i < j < |CommandHashes| ==> CommandHashes[i] != CommandHashes[j]
    ensures Hash(Ascii("gd-tools")) !in ProgramNameHashes
  {
    HashGdAnkisearch(); HashGdEcho(); HashGdMassif(); HashGdImages(); HashGdTranslate(); HashGdMarisa(); HashGdMecab();
    HashAnkisearchCommand(); HashEchoCommand(); HashMassifCommand(); HashImagesCommand(); HashTranslateCommand();
    HashMarisaCommand(); HashMecabCommand(); HashGdTools();
  }

  /** `std::filesystem::path(p).filename()`: the bytes after the last '/'. */
  function BaseName(path: Bytes): (r: Bytes)
    ensures |r| <= |path| && r == path[|path| - |r|..]
    ensures '/' as int !in r
    ensures |r| < |path| ==> path[|path| - |r| - 1] == '/' as int
  {
    if path == [] then []
    else if path[|path| - 1] == '/' as int then []
    else
      var init := path[..|path| - 1];
      var r := BaseName(init);
      assert init[|init| - |r|..] + [path[|path| - 1]] == path[|path| - |r| - 1..];
      r + [path[|path| - 1]]
  }

  /** The label a switch jumps to: the first one whose hash is `h`, if any. */
  function CaseOf(h: nat, labels: seq<nat>, k: nat): (r: Option<nat>)
    requires k <= |labels|
    ensures r.Some? ==> k <= r.value < |labels| && labels[r.value] == h
    decreases |labels| - k
  {
    if k == |labels| then None
    else if labels[k] == h then Some(k)
    else CaseOf(h, labels, k + 1)
  }

  /**
   * `take_action`: a program name whose hash is a `gd-*` label runs that tool
   * on everything after it; otherwise a missing first argument or a help
   * flag prints help; otherwise the hash of the first argument picks the
   * tool, which gets everything after that argument; any other word prints help.
   */
  function TakeAction(args: seq<Bytes>): Outcome
    requires |args| >= 1
  {
    var name := BaseName(args[0]);
    match CaseOf(Hash(name), ProgramNameHashes, 0)
    case Some(k) => Run(Actions[k], args[1..])
    case None =>
      if |args| < 2 || args[1] == Ascii("-h") || args[1] == Ascii("--help") then PrintHelp(name)
      else match CaseOf(Hash(args[1]), CommandHashes, 0)
        case Some(k) => Run(Actions[k], args[2..])
        case None => PrintHelp(name)
  }

  /** The switch finds a label exactly when one has the hash, and then the first such. */
  lemma {:induction false} CaseOfFinds(h: nat, labels: seq<nat>, k: nat)
    requires k <= |labels|
    ensures var r := CaseOf(h, labels, k);
      (r.Some? ==> k <= r.value < |labels| && labels[r.value] == h
                   && forall j :: k <= j < r.value ==> labels[j] != h)
      && (r.None? ==> forall j :: k <= j < |labels| ==> labels[j] != h)
    decreases |labels| - k
  {
    if k < |labels| && labels[k] != h {
      CaseOfFinds(h, labels, k + 1);
    }
  }

  /** Called by the name of a tool, the program runs that tool on all its arguments. */
  lemma ProgramNameSelectsTool(args: seq<Bytes>, k: nat)
    requires |args| >= 1 && k < |ProgramNames| && BaseName(args[0]) == ProgramNames[k]
    ensures TakeAction(args) == Run(Actions[k], args[1..])
  {
    LabelHashes();
    CaseOfFinds(Hash(ProgramNames[k]), ProgramNameHashes, 0);
  }

  /** Called as "gd-tools", the first argument names the tool, which gets the arguments after it. */
  lemma CommandSelectsTool(args: seq<Bytes>, k: nat)
    requires |args| >= 2 && BaseName(args[0]) == Ascii("gd-tools") && k < |Commands| && args[1] == Commands[k]
    ensures TakeAction(args) == Run(Actions[k], args[2..])
  {
    ToolsIsNoProgramName(args);
    NoCommandIsHelpFlag(k);
    LabelHashes();
    CaseOfFinds(Hash(Commands[k]), CommandHashes, 0);
  }

  /** "gd-tools" is not one of the names the first switch knows. */
  lemma ToolsIsNoProgramName(args: seq<Bytes>)
    requires |args| >= 1 && BaseName(args[0]) == Ascii("gd-tools")
    ensures CaseOf(Hash(BaseName(args[0])), ProgramNameHashes, 0).None?
  {
    LabelHashes();
    CaseOfFinds(Hash(Ascii("gd-tools")), ProgramNameHashes, 0);
  }

  /** No command starts with '-', so none is mistaken for a help flag. */
  lemma NoCommandIsHelpFlag(k: nat)
    requires k < |Commands|
    ensures Commands[k] != Ascii("-h") && Commands[k] != Ascii("--help")
  {
    assert Commands[k][0] != '-' as int;
  }

  /** "gd-tools" alone, or with -h or --help first, prints help. */
  lemma HelpFlagPrintsHelp(args: seq<Bytes>)
    requires |args| >= 1 && BaseName(args[0]) == Ascii("gd-tools")
    requires |args| < 2 || args[1] == Ascii("-h") || args[1] == Ascii("--help")
    ensures TakeAction(args) == PrintHelp(Ascii("gd-tools"))
  {
    LabelHashes();
    CaseOfFinds(Hash(Ascii("gd-tools")), ProgramNameHashes, 0);
  }

  /** A first argument whose hash is no label prints help. */
  lemma UnknownCommandPrintsHelp(args: seq<Bytes>)
    requires |args| >= 2 && BaseName(args[0]) == Ascii("gd-tools")
    requires forall k :: 0 <= k < |Commands| ==> Hash(args[1]) != Hash(Commands[k])
    ensures TakeAction(args) == PrintHelp(Ascii("gd-tools"))
  {
    LabelHashes();
    CaseOfFinds(Hash(Ascii("gd-tools")), ProgramNameHashes, 0);
    CaseOfFinds(Hash(args[1]), CommandHashes, 0);
  }

  /** Both "gd-echo" and "gd-tools echo" run the stroke order tool. */
  lemma EchoRunsStrokeOrder(args: seq<Bytes>)
    requires |args| >= 2
    ensures BaseName(args[0]) == Ascii("gd-echo") ==> TakeAction(args) == Run(StrokeOrder, args[1..])
    ensures BaseName(args[0]) == Ascii("gd-tools") && args[1] == Ascii("echo") ==>
      TakeAction(args) == Run(StrokeOrder, args[2..])
  {
    if BaseName(args[0]) == Ascii("gd-echo") {
      ProgramNameSelectsTool(args, 1);
    }
    if BaseName(args[0]) == Ascii("gd-tools") && args[1] == Ascii("echo") {
      CommandSelectsTool(args, 1);
    }
  }
}
