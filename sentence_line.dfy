/**
 * gd-sentence-line (gd-sentence-line.c): splits a sentence at spaces and
 * prints one link per word. A link targets the word with its punctuation
 * removed, is marked "active" when that equals the looked-up word, and with
 * `--difficulty` gets a background colour from the word's vowel count.
 * Characters are the bytes of C strings (no NUL inside), with the C locale's
 * `tolower` and `ispunct`.
 */
module SentenceLine {
  import opened Wrappers
  import opened ByteStrings

  const Space: Byte := ' ' as int

  // ---------------------------------------------------------------- calculate_difficulty

  /** `tolower` in the C locale: only 'A'..'Z' change. */
  function ToLower(b: Byte): Byte {
    if 'A' as int <= b <= 'Z' as int then b + 32 else b
  }

  predicate IsVowel(b: Byte) {
    ToLower(b) in {'a' as int, 'e' as int, 'i' as int, 'o' as int, 'u' as int}
  }

  /** The number of vowels among the bytes of `s`, upper or lower case. */
  function VowelCount(s: Bytes): nat {
    if s == [] then 0
    else VowelCount(s[..|s| - 1]) + (if IsVowel(s[|s| - 1]) then 1 else 0)
  }

  /** The difficulty of a vowel count: easy (1), medium (2) or hard (3). */
  function Level(vowels: nat): nat {
    if vowels <= 2 then 1 else if vowels <= 4 then 2 else 3
  }

  /** `calculate_difficulty`: count the vowels of the word, then grade the count. */
  method CalculateDifficulty(word: Bytes) returns (difficulty: nat)
    ensures difficulty == Level(VowelCount(word))
  {
    var numVowels := 0;
    for i := 0 to |word|
      invariant numVowels == VowelCount(word[..i])
    {
      assert word[..i + 1][..i] == word[..i];
      var c := ToLower(word[i]);
      if c == 'a' as int || c == 'e' as int || c == 'i' as int || c == 'o' as int || c == 'u' as int {
        numVowels := numVowels + 1;
      }
    }
    assert word[..|word|] == word;
    if numVowels <= 2 {
      difficulty := 1;
    } else if numVowels <= 4 {
      difficulty := 2;
    } else {
      difficulty := 3;
    }
  }

  /**
   * The difficulty is 1, 2 or 3: at most two vowels is easy, five or more is
   * hard, and more vowels never make a word easier.
   */
  lemma LevelGrades(n: nat, m: nat)
    ensures 1 <= Level(n) <= 3
    ensures Level(n) == 1 <==> n <= 2
    ensures Level(n) == 3 <==> n >= 5
    ensures n <= m ==> Level(n) <= Level(m)
  {
  }

  /** The vowels of two pieces add up. */
  lemma {:induction false} VowelCountAppend(a: Bytes, b: Bytes)
    ensures VowelCount(a + b) == VowelCount(a) + VowelCount(b)
    decreases |b|
  {
    if b != [] {
      var b' := b[..|b| - 1];
      assert (a + b)[..|a + b| - 1] == a + b';
      VowelCountAppend(a, b');
    } else {
      assert a + b == a;
    }
  }

  /** Appending text to a word never lowers its difficulty. */
  lemma LongerIsNoEasier(a: Bytes, b: Bytes)
    ensures Level(VowelCount(a)) <= Level(VowelCount(a + b))
  {
    VowelCountAppend(a, b);
    LevelGrades(VowelCount(a), VowelCount(a + b));
  }

  /** Case does not matter: "AEIOU" and "aeiou" both have five vowels and are hard. */
  lemma CaseIsIgnored()
    ensures VowelCount(Ascii("AEIOU")) == VowelCount(Ascii("aeiou")) == 5
    ensures Level(VowelCount(Ascii("AEIOU"))) == 3
  {
    var up := Ascii("AEIOU");
    var low := Ascii("aeiou");
    assert up[..4][..3] == up[..3] && up[..3][..2] == up[..2] && up[..2][..1] == up[..1];
    assert low[..4][..3] == low[..3] && low[..3][..2] == low[..2] && low[..2][..1] == low[..1];
    assert VowelCount(up[..1]) == 1 && VowelCount(low[..1]) == 1;
    assert VowelCount(up[..2]) == 2 && VowelCount(low[..2]) == 2;
    assert VowelCount(up[..3]) == 3 && VowelCount(low[..3]) == 3;
    assert VowelCount(up[..4]) == 4 && VowelCount(low[..4]) == 4;
  }

  // ---------------------------------------------------------------- remove_punctuations

  /** `ispunct` in the C locale: the printable ASCII bytes that are neither letters, digits nor space. */
  predicate IsPunct(b: Byte) {
    (33 <= b <= 47) || (58 <= b <= 64) || (91 <= b <= 96) || (123 <= b <= 126)
  }

  /** The bytes of `s` that are not punctuation, in order. */
  function Depunct(s: Bytes): Bytes {
    if s == [] then []
    else Depunct(s[..|s| - 1]) + (if IsPunct(s[|s| - 1]) then [] else [s[|s| - 1]])
  }

  /**
   * `remove_punctuations`: a new buffer one longer than the string, the kept
   * bytes copied to its front through index `j`, and a NUL after them.
   */
  method RemovePunctuations(s: Bytes) returns (result: array<Byte>)
    requires 0 !in s
    ensures fresh(result) && result.Length == |s| + 1
    ensures |Depunct(s)| <= |s|
    ensures result[..|Depunct(s)|] == Depunct(s) && result[|Depunct(s)|] == 0
  {
    result := new Byte[|s| + 1];
    var j := 0;
    for i := 0 to |s|
      invariant j <= i
      invariant j == |Depunct(s[..i])| && result[..j] == Depunct(s[..i])
    {
      assert s[..i + 1][..i] == s[..i];
      if !IsPunct(s[i]) {
        result[j] := s[i];
        j := j + 1;
      }
    }
    assert s[..|s|] == s;
    result[j] := 0;
  }

  /** `strlen`: the position of the first NUL. */
  method Strlen(a: array<Byte>) returns (n: nat)
    requires 0 in a[..]
    ensures n < a.Length && a[n] == 0 && 0 !in a[..n]
  {
    n := 0;
    while a[n] != 0
      invariant n < a.Length && 0 !in a[..n] && 0 in a[n..]
      decreases a.Length - n
    {
      assert a[n..] == [a[n]] + a[n + 1..];
      n := n + 1;
    }
  }

  /** No byte of `s` is punctuation. */
  predicate NoPunct(s: Bytes) {
    forall i :: 0 <= i < |s| ==> !IsPunct(s[i])
  }

  /** Stripping keeps no punctuation, no NUL that was not there, and never lengthens. */
  lemma {:induction false} DepunctKeepsOthers(s: Bytes)
    ensures NoPunct(Depunct(s))
    ensures |Depunct(s)| <= |s|
    ensures forall b :: b in Depunct(s) ==> b in s
  {
    if s != [] {
      DepunctKeepsOthers(s[..|s| - 1]);
    }
  }

  /** A string without punctuation is its own stripped form, and only such a string is. */
  lemma {:induction false} DepunctFixes(s: Bytes)
    ensures Depunct(s) == s <==> NoPunct(s)
  {
    DepunctKeepsOthers(s);
    if s != [] {
      var init := s[..|s| - 1];
      DepunctFixes(init);
      if NoPunct(s) {
        assert NoPunct(init);
        assert init + [s[|s| - 1]] == s;
      }
    }
  }

  /** Stripping twice is stripping once. */
  lemma DepunctIdempotent(s: Bytes)
    ensures Depunct(Depunct(s)) == Depunct(s)
  {
    DepunctKeepsOthers(s);
    DepunctFixes(Depunct(s));
  }

  /** The C string in the buffer `remove_punctuations` returns is exactly the stripped word. */
  method CleanWord(s: Bytes) returns (clean: Bytes)
    requires 0 !in s
    ensures clean == Depunct(s)
  {
    var buffer := RemovePunctuations(s);
    DepunctKeepsOthers(s);
    assert 0 !in Depunct(s);
    assert 0 in buffer[..] by {
      assert buffer[..][|Depunct(s)|] == 0;
    }
    var n := Strlen(buffer);
    FirstNul(buffer[..], |Depunct(s)|, n);
    clean := buffer[..n];
  }

  /** A C string ends at its first NUL, wherever one looks for it. */
  lemma FirstNul(a: Bytes, k: nat, n: nat)
    requires k < |a| && a[k] == 0 && 0 !in a[..k]
    requires n < |a| && a[n] == 0 && 0 !in a[..n]
    ensures n == k
  {
  }

  // ---------------------------------------------------------------- strtok

  /** The end of the run of non-space bytes that starts at `i`. */
  function RunEnd(s: Bytes, i: nat): (j: nat)
    requires i <= |s|
    ensures i <= j <= |s| && (j < |s| ==> s[j] == Space)
    decreases |s| - i
  {
    if i == |s| || s[i] == Space then i else RunEnd(s, i + 1)
  }

  /** The tokens `strtok(_, " ")` returns from position `i` on: the maximal runs of non-space bytes. */
  function TokensFrom(s: Bytes, i: nat): seq<Bytes>
    requires i <= |s|
    decreases |s| - i
  {
    if i == |s| then []
    else if s[i] == Space then TokensFrom(s, i + 1)
    else
      var j := RunEnd(s, i);
      [s[i..j]] + TokensFrom(s, j)
  }

  function Tokens(s: Bytes): seq<Bytes> {
    TokensFrom(s, 0)
  }

  /** The bytes that are not spaces, in order. */
  function Unspaced(s: Bytes, i: nat): Bytes
    requires i <= |s|
    decreases |s| - i
  {
    if i == |s| then [] else (if s[i] == Space then [] else [s[i]]) + Unspaced(s, i + 1)
  }

  function Concat(parts: seq<Bytes>): Bytes {
    if parts == [] then [] else parts[0] + Concat(parts[1..])
  }

  /** A stretch without spaces is its own unspaced text. */
  lemma {:induction false} RunIsUnspaced(s: Bytes, i: nat, j: nat)
    requires i <= j <= |s| && Space !in s[i..j]
    ensures Unspaced(s, i) == s[i..j] + Unspaced(s, j)
    decreases j - i
  {
    if i < j {
      assert s[i..j][0] == s[i] && s[i..j][1..] == s[i + 1..j];
      RunIsUnspaced(s, i + 1, j);
      Regroup(s[i], s[i + 1..j], Unspaced(s, j));
      assert s[i..j] == [s[i]] + s[i + 1..j];
    }
  }

  lemma Regroup(b: Byte, x: Bytes, y: Bytes)
    ensures [b] + (x + y) == ([b] + x) + y
  {
  }

  /**
   * The tokens are never empty, hold no space, and together are the
   * sentence with its spaces removed: nothing but spaces is lost.
   */
  lemma {:induction false} TokensAreTheWords(s: Bytes, i: nat)
    requires i <= |s|
    ensures forall k :: 0 <= k < |TokensFrom(s, i)| ==> TokensFrom(s, i)[k] != [] && Space !in TokensFrom(s, i)[k]
    ensures Concat(TokensFrom(s, i)) == Unspaced(s, i)
    decreases |s| - i
  {
    if i < |s| {
      if s[i] == Space {
        TokensAreTheWords(s, i + 1);
      } else {
        var j := RunEnd(s, i);
        TokensAreTheWords(s, j);
        RunHasNoSpace(s, i);
        RunIsUnspaced(s, i, j);
        var t := TokensFrom(s, i);
        assert t == [s[i..j]] + TokensFrom(s, j);
        assert t[1..] == TokensFrom(s, j);
        forall k | 0 <= k < |t|
          ensures t[k] != [] && Space !in t[k]
        {
          if k > 0 {
            assert t[k] == TokensFrom(s, j)[k - 1];
          }
        }
      }
    }
  }

  lemma {:induction false} RunHasNoSpace(s: Bytes, i: nat)
    requires i <= |s|
    ensures Space !in s[i..RunEnd(s, i)]
    ensures i < |s| && s[i] != Space ==> RunEnd(s, i) > i
    decreases |s| - i
  {
    if i < |s| && s[i] != Space {
      RunHasNoSpace(s, i + 1);
      assert s[i..RunEnd(s, i)] == [s[i]] + s[i + 1..RunEnd(s, i)];
    }
  }

  /**
   * One call of `strtok`: skip the spaces at `pos`, return the run after
   * them and the position after the space that ends it (which `strtok`
   * overwrites with NUL), or nothing when only spaces are left.
   */
  method Strtok(s: Bytes, pos: nat) returns (token: Option<Bytes>, next: nat)
    requires pos <= |s|
    ensures pos <= next <= |s|
    ensures token.None? ==> TokensFrom(s, pos) == []
    ensures token.Some? ==> pos < next && TokensFrom(s, pos) == [token.value] + TokensFrom(s, next)
    ensures token.Some? ==> forall b :: b in token.value ==> b in s
  {
    var i := pos;
    while i < |s| && s[i] == Space
      invariant pos <= i <= |s| && TokensFrom(s, pos) == TokensFrom(s, i)
      decreases |s| - i
    {
      i := i + 1;
    }
    if i == |s| {
      return None, i;
    }
    var j := i;
    while j < |s| && s[j] != Space
      invariant i <= j <= |s| && RunEnd(s, i) == RunEnd(s, j)
      decreases |s| - j
    {
      j := j + 1;
    }
    token := Some(s[i..j]);
    assert forall b :: b in s[i..j] ==> b in s;
    next := if j < |s| then j + 1 else j;
    if j < |s| {
      assert TokensFrom(s, j) == TokensFrom(s, j + 1);
    }
  }

  // ---------------------------------------------------------------- the links

  /** The background a link gets: none, #ffffcc (medium) or #ffcccc (hard). */
  datatype Background = NoBackground | Yellow | Red

  /** One printed link: target, "active" mark, background and the word as written. */
  datatype Link = Link(target: Bytes, active: bool, background: Background, text: Bytes)

  /** The background for a difficulty when `--difficulty` is on; easy words stay uncoloured. */
  function BackgroundOf(difficulty: nat): Background {
    if difficulty >= 3 then Red else if difficulty >= 2 then Yellow else NoBackground
  }

  /** The link of one token. */
  function Render(token: Bytes, word: Bytes, colours: bool): Link {
    Link(Depunct(token), Depunct(token) == word,
         if colours then BackgroundOf(Level(VowelCount(token))) else NoBackground, token)
  }

  /**
   * The token loop of `main`: one link per `strtok` token of the sentence,
   * in order.
   */
  method PrintLinks(sentence: Bytes, word: Bytes, colours: bool) returns (links: seq<Link>)
    requires 0 !in sentence
    ensures |links| == |Tokens(sentence)|
    ensures forall k :: 0 <= k < |links| ==> links[k] == Render(Tokens(sentence)[k], word, colours)
  {
    links := [];
    var token: Option<Bytes>;
    var pos: nat;
    token, pos := Strtok(sentence, 0);
    ghost var done: seq<Bytes> := [];
    while token.Some?
      invariant pos <= |sentence|
      invariant token.Some? ==> Tokens(sentence) == done + [token.value] + TokensFrom(sentence, pos)
      invariant token.Some? ==> 0 !in token.value
      invariant token.None? ==> Tokens(sentence) == done
      invariant |links| == |done| && forall k :: 0 <= k < |done| ==> links[k] == Render(done[k], word, colours)
      decreases |sentence| - pos + (if token.Some? then 1 else 0)
    {
      var t := token.value;
      var clean := CleanWord(t);
      var background := NoBackground;
      if colours {
        var difficulty := CalculateDifficulty(t);
        if difficulty >= 3 {
          background := Red;
        } else if difficulty >= 2 {
          background := Yellow;
        }
      }
      links := links + [Link(clean, clean == word, background, t)];
      done := done + [t];
      token, pos := Strtok(sentence, pos);
    }
  }

  /**
   * A link is "active" exactly when the token without punctuation is the
   * looked-up word, and is coloured only with `--difficulty`: hard words red,
   * medium words yellow, easy words not at all.
   */
  lemma RenderRules(token: Bytes, word: Bytes, colours: bool)
    ensures Render(token, word, colours).active <==> Depunct(token) == word
    ensures !colours ==> Render(token, word, colours).background == NoBackground
    ensures colours && VowelCount(token) >= 5 ==> Render(token, word, colours).background == Red
    ensures colours && 3 <= VowelCount(token) <= 4 ==> Render(token, word, colours).background == Yellow
    ensures colours && VowelCount(token) <= 2 ==> Render(token, word, colours).background == NoBackground
    ensures Render(token, word, colours).text == token && NoPunct(Render(token, word, colours).target)
  {
    DepunctKeepsOthers(token);
  }

  // ---------------------------------------------------------------- main

  /** How `main` proceeds: usage or an unknown flag (exit status 1), or a line with its options. */
  datatype Start =
    | Usage
    | UnknownFlag(flag: Bytes)
    | Line(translate: bool, colours: bool, sentence: Bytes, word: Bytes)

  predicate IsFlag(arg: Bytes) {
    arg == Ascii("--translate") || arg == Ascii("--difficulty")
  }

  /**
   * The start of `main`: fewer than three arguments (the program name
   * included) is a usage error; every argument before the last two must be
   * `--translate` or `--difficulty`, and the first that is not stops the
   * program; the last two are the sentence and the word.
   */
  method ParseArgs(args: seq<Bytes>) returns (r: Start)
    ensures |args| < 3 <==> r == Usage
    ensures r.UnknownFlag? <==> |args| >= 3 && exists k :: 1 <= k < |args| - 2 && !IsFlag(args[k])
    ensures r.UnknownFlag? ==> exists k :: 1 <= k < |args| - 2 && r.flag == args[k] && !IsFlag(args[k])
                                          && forall m :: 1 <= m < k ==> IsFlag(args[m])
    ensures r.Line? ==> |args| >= 3 && r.sentence == args[|args| - 2] && r.word == args[|args| - 1]
    ensures r.Line? ==> (r.translate <==> Ascii("--translate") in args[1..|args| - 2])
    ensures r.Line? ==> (r.colours <==> Ascii("--difficulty") in args[1..|args| - 2])
  {
    if |args| < 3 {
      return Usage;
    }
    var translate, colours := false, false;
    var cur := 1;
    while cur < |args| - 2
      invariant 1 <= cur <= |args| - 2
      invariant forall m :: 1 <= m < cur ==> IsFlag(args[m])
      invariant translate <==> Ascii("--translate") in args[1..cur]
      invariant colours <==> Ascii("--difficulty") in args[1..cur]
    {
      assert args[1..cur + 1] == args[1..cur] + [args[cur]];
      if args[cur] == Ascii("--translate") {
        translate := true;
        cur := cur + 1;
      } else if args[cur] == Ascii("--difficulty") {
        colours := true;
        cur := cur + 1;
      } else {
        return UnknownFlag(args[cur]);
      }
    }
    return Line(translate, colours, args[cur], args[cur + 1]);
  }
}
