/**
 * The UTF-8 walk of src/kana_conv.cpp and src/kana_conv.h: the first-byte
 * classifier `unicode_char_byte_len` and the view `iter_unicode_chars`, which
 * yields one `(byte offset, substring)` pair per byte that starts a sequence.
 */
module Utf8Walk {
  import opened Wrappers
  import opened ByteStrings
  import opened Util

  /**
   * `unicode_char_byte_len`: the mask tests in their order in the code, a
   * continuation byte (SKIP) first. The result is the `CharByteLen` value.
   */
  function UnicodeCharByteLen(ch: Byte): (r: Result<nat, Failure>)
    ensures r.Ok? <==> ch < 0xF8
    ensures r == Ok(0) <==> 0x80 <= ch < 0xC0
    ensures r == Ok(1) <==> ch < 0x80
    ensures r == Ok(2) <==> 0xC0 <= ch < 0xE0
    ensures r == Ok(3) <==> 0xE0 <= ch < 0xF0
    ensures r == Ok(4) <==> 0xF0 <= ch < 0xF8
    ensures r.Err? ==> r.error == RuntimeError(UnrecognizedByte(ch))
  {
    var b := ch as bv8;
    if b & 0xC0 == 0x80 then Ok(0)
    else if b & 0x80 == 0x00 then Ok(1)
    else if b & 0xE0 == 0xC0 then Ok(2)
    else if b & 0xF0 == 0xE0 then Ok(3)
    else if b & 0xF8 == 0xF0 then Ok(4)
    else Err(RuntimeError(UnrecognizedByte(ch)))
  }

  /** The lead-byte lengths that section 3 of RFC 3629 allows (UTF8-1 to UTF8-4). */
  function Rfc3629LeadLength(b: Byte): Option<nat> {
    if b < 0x80 then Some(1)
    else if 0xC2 <= b <= 0xDF then Some(2)
    else if 0xE0 <= b <= 0xEF then Some(3)
    else if 0xF0 <= b <= 0xF4 then Some(4)
    else None
  }

  /**
   * Every lead byte RFC 3629 allows gets its length, but 0xC0, 0xC1 and
   * 0xF5..0xF7, which it forbids, are accepted as well.
   */
  lemma ClassifierVersusRfc3629(b: Byte)
    ensures Rfc3629LeadLength(b).Some? ==> UnicodeCharByteLen(b) == Ok(Rfc3629LeadLength(b).value)
    ensures b == 0xC0 || b == 0xC1 ==> Rfc3629LeadLength(b).None? && UnicodeCharByteLen(b) == Ok(2)
    ensures 0xF5 <= b <= 0xF7 ==> Rfc3629LeadLength(b).None? && UnicodeCharByteLen(b) == Ok(4)
  {
  }

  predicate IsContinuation(b: Byte) {
    0x80 <= b < 0xC0
  }

  /**
   * The classifier's verdict written with byte ranges instead of masks; the
   * walk below uses this form, which `ClassifierIsByteClass` shows equal.
   */
  function ByteClass(ch: Byte): Result<nat, Failure> {
    if IsContinuation(ch) then Ok(0)
    else if ch < 0x80 then Ok(1)
    else if ch < 0xE0 then Ok(2)
    else if ch < 0xF0 then Ok(3)
    else if ch < 0xF8 then Ok(4)
    else Err(RuntimeError(UnrecognizedByte(ch)))
  }

  lemma ClassifierIsByteClass(ch: Byte)
    ensures UnicodeCharByteLen(ch) == ByteClass(ch)
  {
  }

  /** The class of a byte the classifier accepts. */
  function ByteLen(b: Byte): (n: nat)
    requires b < 0xF8
    ensures n <= 4 && (n == 0 <==> IsContinuation(b))
  {
    ByteClass(b).value
  }

  /** A pair of `iter_unicode_chars`: byte offset and the substring starting there. */
  datatype CharView = CharView(idx: nat, ch: Bytes)

  /** `v` is the pair for a non-continuation byte of `s`, whose first byte sits at offset `base`. */
  predicate IsViewAt(s: Bytes, base: nat, v: CharView) {
    base <= v.idx < base + |s| && s[v.idx - base] < 0xF8 && ByteLen(s[v.idx - base]) > 0 &&
    v.ch == Substr(s, v.idx - base, ByteLen(s[v.idx - base]))
  }

  /**
   * `iter_unicode_chars` over `s`, whose first byte is at offset `base` of the
   * whole string: continuation bytes are filtered out, every other byte gives
   * one pair, and the walk raises at the first byte the classifier rejects.
   */
  function Iter(s: Bytes, base: nat): Result<seq<CharView>, Failure>
    decreases |s|
  {
    if s == [] then Ok([])
    else
      match ByteClass(s[0])
      case Err(e) => Err(e)
      case Ok(len) =>
        match Iter(s[1..], base + 1)
        case Err(e) => Err(e)
        case Ok(rest) => Ok((if len == 0 then [] else [CharView(base, Substr(s, 0, len))]) + rest)
  }

  /** One step of the walk over a continuation byte: nothing is yielded. */
  lemma IterSkipsContinuation(s: Bytes, base: nat)
    requires s != [] && IsContinuation(s[0])
    ensures Iter(s, base) == Iter(s[1..], base + 1)
  {
    assert ByteClass(s[0]) == Ok(0);
    match Iter(s[1..], base + 1)
    case Err(_) =>
    case Ok(rest) => assert [] + rest == rest;
  }

  /** One step of the walk over a lead byte: its pair comes first. */
  lemma IterYieldsLead(s: Bytes, base: nat)
    requires s != [] && s[0] < 0xF8 && !IsContinuation(s[0])
    ensures Iter(s[1..], base + 1).Err? ==> Iter(s, base) == Iter(s[1..], base + 1)
    ensures Iter(s[1..], base + 1).Ok? ==>
      Iter(s, base) == Ok([CharView(base, Substr(s, 0, ByteLen(s[0])))] + Iter(s[1..], base + 1).value)
  {
  }

  /** No byte of `s` is in 0xF8..0xFF, the bytes the walk rejects. */
  predicate NoBadBytes(s: Bytes) {
    forall j :: 0 <= j < |s| ==> s[j] < 0xF8
  }

  /** The walk completes exactly when no byte is in 0xF8..0xFF. */
  lemma {:induction false} IterSucceeds(s: Bytes, base: nat)
    ensures Iter(s, base).Ok? <==> forall j :: 0 <= j < |s| ==> s[j] < 0xF8
    decreases |s|
  {
    if s != [] {
      IterSucceeds(s[1..], base + 1);
      assert forall j :: 1 <= j < |s| ==> s[1..][j - 1] == s[j];
    }
  }

  /** The walk raises `runtime_error` naming the first unrecognised byte. */
  lemma {:induction false} IterFailsAtFirstBadByte(s: Bytes, base: nat, j: nat)
    requires j < |s| && s[j] >= 0xF8
    requires forall p :: 0 <= p < j ==> s[p] < 0xF8
    ensures Iter(s, base) == Err(RuntimeError(UnrecognizedByte(s[j])))
    decreases j
  {
    if j > 0 {
      IterFailsAtFirstBadByte(s[1..], base + 1, j - 1);
    }
  }

  /** Every pair of a completed walk is `(idx, substr(idx, len))` for a byte that is not a continuation byte. */
  lemma {:induction false} IterViewsAt(s: Bytes, base: nat)
    requires Iter(s, base).Ok?
    ensures forall n :: 0 <= n < |Iter(s, base).value| ==> IsViewAt(s, base, Iter(s, base).value[n])
    decreases |s|
  {
    if s != [] {
      var rest := Iter(s[1..], base + 1).value;
      IterViewsAt(s[1..], base + 1);
      ViewsShift(s, base, rest);
      if IsContinuation(s[0]) {
        IterSkipsContinuation(s, base);
      } else {
        IterYieldsLead(s, base);
        var v := CharView(base, Substr(s, 0, ByteLen(s[0])));
        assert IsViewAt(s, base, v);
        ConsViews(s, base, v, rest);
      }
    }
  }

  lemma ConsViews(s: Bytes, base: nat, v: CharView, rest: seq<CharView>)
    requires IsViewAt(s, base, v)
    requires forall n :: 0 <= n < |rest| ==> IsViewAt(s, base, rest[n])
    ensures forall n :: 0 <= n < |[v] + rest| ==> IsViewAt(s, base, ([v] + rest)[n])
  {
    ConsAll(w => IsViewAt(s, base, w), v, rest);
  }

  /** A property of `v` and of every element of `rest` holds for every element of `[v] + rest`. */
  lemma ConsAll(P: CharView -> bool, v: CharView, rest: seq<CharView>)
    requires P(v) && forall n :: 0 <= n < |rest| ==> P(rest[n])
    ensures forall n :: 0 <= n < |[v] + rest| ==> P(([v] + rest)[n])
  {
    forall n | 0 <= n < |[v] + rest| ensures P(([v] + rest)[n]) {
      if n > 0 {
        assert ([v] + rest)[n] == rest[n - 1];
      }
    }
  }

  /** The offsets of a completed walk strictly increase. */
  lemma {:induction false} IterOffsetsIncrease(s: Bytes, base: nat)
    requires Iter(s, base).Ok?
    ensures forall n, m :: 0 <= n < m < |Iter(s, base).value| ==> Iter(s, base).value[n].idx < Iter(s, base).value[m].idx
    decreases |s|
  {
    if s != [] {
      var rest := Iter(s[1..], base + 1).value;
      IterOffsetsIncrease(s[1..], base + 1);
      if IsContinuation(s[0]) {
        IterSkipsContinuation(s, base);
      } else {
        IterYieldsLead(s, base);
        IterViewsAt(s[1..], base + 1);
        var vs := Iter(s, base).value;
        assert forall n :: 1 <= n < |vs| ==> vs[n] == rest[n - 1];
      }
    }
  }

  /** Every byte that is not a continuation byte has its pair in a completed walk. */
  lemma {:induction false} IterCoversLeads(s: Bytes, base: nat, j: nat)
    requires Iter(s, base).Ok?
    requires j < |s| && !IsContinuation(s[j])
    ensures exists n :: 0 <= n < |Iter(s, base).value| && Iter(s, base).value[n].idx == base + j
    decreases j
  {
    var rest := Iter(s[1..], base + 1).value;
    if IsContinuation(s[0]) {
      IterSkipsContinuation(s, base);
      assert s[1..][j - 1] == s[j];
      IterCoversLeads(s[1..], base + 1, j - 1);
    } else {
      IterYieldsLead(s, base);
      var vs := Iter(s, base).value;
      if j == 0 {
        assert vs[0].idx == base;
      } else {
        assert s[1..][j - 1] == s[j];
        IterCoversLeads(s[1..], base + 1, j - 1);
        var n :| 0 <= n < |rest| && rest[n].idx == base + 1 + (j - 1);
        assert vs[n + 1] == rest[n];
      }
    }
  }

  /** Pairs of the walk of `s[1..]` are pairs of the walk of `s`, one offset later. */
  lemma ViewsShift(s: Bytes, base: nat, vs: seq<CharView>)
    requires s != []
    requires forall n :: 0 <= n < |vs| ==> IsViewAt(s[1..], base + 1, vs[n])
    ensures forall n :: 0 <= n < |vs| ==> IsViewAt(s, base, vs[n])
  {
    forall n | 0 <= n < |vs| ensures IsViewAt(s, base, vs[n]) {
      ViewShift(s, base, vs[n]);
    }
  }

  lemma ViewShift(s: Bytes, base: nat, v: CharView)
    requires s != [] && IsViewAt(s[1..], base + 1, v)
    ensures IsViewAt(s, base, v)
  {
    var t := s[1..];
    var i := v.idx - base;
    assert t[i - 1] == s[i];
    var len := ByteLen(s[i]);
    var r := Substr(t, i - 1, len);
    assert r == t[i - 1..i - 1 + |r|];
    assert t[i - 1..i - 1 + |r|] == s[i..i + |r|];
  }

  /** `iter_unicode_chars(str)`. */
  function IterUnicodeChars(s: Bytes): Result<seq<CharView>, Failure> {
    Iter(s, 0)
  }

  /** The substrings of the pairs, in order. */
  function ViewChars(vs: seq<CharView>): (cs: seq<Bytes>)
    ensures |cs| == |vs| && forall n :: 0 <= n < |vs| ==> cs[n] == vs[n].ch
  {
    seq(|vs|, n requires 0 <= n < |vs| => vs[n].ch)
  }

  lemma OneAsciiByte(b: Byte, base: nat)
    requires b < 0x80
    ensures Iter([b], base) == Ok([CharView(base, [b])])
  {
    assert [b][1..] == [];
    assert Iter([], base + 1) == Ok([]);
    IterYieldsLead([b], base);
    assert ByteLen(b) == 1;
    assert Substr([b], 0, 1) == [b];
    assert [CharView(base, [b])] + [] == [CharView(base, [b])];
  }

  /** A stray continuation byte, even at offset 0, is dropped without an error. */
  lemma StrayContinuationDropped()
    ensures IterUnicodeChars([0x80, 0x41]) == Ok([CharView(1, [0x41])])
  {
    var s: Bytes := [0x80, 0x41];
    IterSkipsContinuation(s, 0);
    assert s[1..] == [0x41];
    OneAsciiByte(0x41, 1);
  }

  /**
   * A three-byte lead byte followed by ASCII gives two overlapping pairs, so
   * joining the substrings does not give the input back.
   */
  lemma MalformedInputOverlaps()
    ensures IterUnicodeChars([0xE3, 0x41]) == Ok([CharView(0, [0xE3, 0x41]), CharView(1, [0x41])])
    ensures Join(ViewChars(IterUnicodeChars([0xE3, 0x41]).value)) != [0xE3, 0x41]
  {
    WalkOfTruncated([0xE3, 0x41]);
    var cs := ViewChars([CharView(0, [0xE3, 0x41]), CharView(1, [0x41])]);
    assert cs == [[0xE3, 0x41], [0x41]];
    assert Join(cs) == [0xE3, 0x41] + Join([[0x41]]);
    assert |Join(cs)| == 3;
  }

  /** The walk of a truncated three-byte sequence followed by ASCII. */
  lemma WalkOfTruncated(s: Bytes)
    requires s == [0xE3, 0x41]
    ensures IterUnicodeChars(s) == Ok([CharView(0, s), CharView(1, [0x41])])
  {
    assert s[1..] == [0x41];
    OneAsciiByte(0x41, 1);
    IterYieldsLead(s, 0);
    assert ByteLen(s[0]) == 3;
    assert Substr(s, 0, 3) == s;
    assert Iter(s, 0) == Ok([CharView(0, s)] + [CharView(1, [0x41])]);
    assert [CharView(0, s)] + [CharView(1, [0x41])] == [CharView(0, s), CharView(1, [0x41])];
    assert IterUnicodeChars(s) == Iter(s, 0);
  }

  // ------------------------------------------------------------ well-formed UTF-8

  /** One complete sequence: a lead byte of length L followed by L - 1 continuation bytes. */
  predicate WellFormedChar(c: Bytes) {
    |c| >= 1 && c[0] < 0xF8 && ByteLen(c[0]) == |c| &&
    forall k :: 1 <= k < |c| ==> IsContinuation(c[k])
  }

  /** A string made of complete sequences only. */
  predicate WellFormed(s: Bytes)
    decreases |s|
  {
    s == [] ||
    (s[0] < 0xF8 && 1 <= ByteLen(s[0]) <= |s| &&
     WellFormedChar(s[..ByteLen(s[0])]) && WellFormed(s[ByteLen(s[0])..]))
  }

  /** Continuation bytes at the front are skipped without changing what follows. */
  lemma {:induction false} SkipContinuations(s: Bytes, j: nat, base: nat)
    requires j <= |s|
    requires forall p :: 0 <= p < j ==> IsContinuation(s[p])
    ensures Iter(s, base) == Iter(s[j..], base + j)
    decreases j
  {
    if j > 0 {
      IterSkipsContinuation(s, base);
      assert s[1..][j - 1..] == s[j..];
      SkipContinuations(s[1..], j - 1, base + 1);
    }
  }

  lemma ViewCharsCons(v: CharView, vs: seq<CharView>)
    ensures ViewChars([v] + vs) == [v.ch] + ViewChars(vs)
  {
    var l := ViewChars([v] + vs);
    var r := [v.ch] + ViewChars(vs);
    assert |l| == |r|;
    forall n | 0 <= n < |l| ensures l[n] == r[n] {
      if n > 0 {
        assert ([v] + vs)[n] == vs[n - 1];
      }
    }
  }

  /** One complete sequence at the front of the walk gives one pair and skips its continuation bytes. */
  lemma IterOfJoinStep(cs: seq<Bytes>, base: nat)
    requires cs != [] && WellFormedChar(cs[0])
    requires Iter(Join(cs[1..]), base + |cs[0]|).Ok?
    ensures Iter(Join(cs), base) == Ok([CharView(base, cs[0])] + Iter(Join(cs[1..]), base + |cs[0]|).value)
  {
    assert Join(cs) == cs[0] + Join(cs[1..]);
    IterOfCharThen(cs[0], Join(cs[1..]), base);
  }

  /** A complete sequence in front of `rest` gives its pair, then the pairs of `rest`. */
  lemma IterOfCharThen(c: Bytes, rest: Bytes, base: nat)
    requires WellFormedChar(c)
    requires Iter(rest, base + |c|).Ok?
    ensures Iter(c + rest, base) == Ok([CharView(base, c)] + Iter(rest, base + |c|).value)
  {
    var s := c + rest;
    assert s[1..][|c| - 1..] == rest;
    assert forall p :: 0 <= p < |c| - 1 ==> s[1..][p] == c[p + 1];
    SkipContinuations(s[1..], |c| - 1, base + 1);
    IterYieldsLead(s, base);
    assert Substr(s, 0, |c|) == c;
  }

  /** Walking the concatenation of complete sequences gives those sequences back. */
  lemma {:induction false} IterOfJoin(cs: seq<Bytes>, base: nat)
    requires forall n :: 0 <= n < |cs| ==> WellFormedChar(cs[n])
    ensures Iter(Join(cs), base).Ok?
    ensures ViewChars(Iter(Join(cs), base).value) == cs
    decreases |cs|
  {
    if cs != [] {
      IterOfJoin(cs[1..], base + |cs[0]|);
      IterOfJoinStep(cs, base);
      ViewCharsCons(CharView(base, cs[0]), Iter(Join(cs[1..]), base + |cs[0]|).value);
      assert [cs[0]] + cs[1..] == cs;
    }
  }

  /** In that walk, the pair of the n-th sequence sits at the total length of the sequences before it. */
  lemma IterOffsetsOfJoin(cs: seq<Bytes>, base: nat)
    requires forall n :: 0 <= n < |cs| ==> WellFormedChar(cs[n])
    ensures Iter(Join(cs), base).Ok? && |Iter(Join(cs), base).value| == |cs|
    ensures forall n :: 0 <= n < |cs| ==> Iter(Join(cs), base).value[n].idx == base + |Join(cs[..n])|
  {
    IterOfJoin(cs, base);
    forall n | 0 <= n < |cs| ensures Iter(Join(cs), base).value[n].idx == base + |Join(cs[..n])| {
      IterOffsetOfJoin(cs, base, n);
    }
  }

  lemma {:induction false} IterOffsetOfJoin(cs: seq<Bytes>, base: nat, n: nat)
    requires forall n :: 0 <= n < |cs| ==> WellFormedChar(cs[n])
    requires n < |cs|
    ensures Iter(Join(cs), base).Ok? && |Iter(Join(cs), base).value| == |cs|
    ensures Iter(Join(cs), base).value[n].idx == base + |Join(cs[..n])|
    decreases n
  {
    var c := cs[0];
    IterOfJoin(cs, base);
    IterOfJoin(cs[1..], base + |c|);
    IterOfJoinStep(cs, base);
    if n == 0 {
      assert cs[..0] == [];
    } else {
      IterOffsetOfJoin(cs[1..], base + |c|, n - 1);
      JoinOfPrefix(cs, n);
    }
  }

  /** The first `n` sequences joined: the first one, then the next `n - 1`. */
  lemma JoinOfPrefix(cs: seq<Bytes>, n: nat)
    requires 0 < n <= |cs|
    ensures Join(cs[..n]) == cs[0] + Join(cs[1..][..n - 1])
  {
    assert cs[..n] == [cs[0]] + cs[1..][..n - 1];
    assert ([cs[0]] + cs[1..][..n - 1])[1..] == cs[1..][..n - 1];
  }

  /** The concatenation of complete sequences is well-formed. */
  lemma {:induction false} JoinIsWellFormed(cs: seq<Bytes>)
    requires forall n :: 0 <= n < |cs| ==> WellFormedChar(cs[n])
    ensures WellFormed(Join(cs))
    decreases |cs|
  {
    if cs != [] {
      var c := cs[0];
      var s := Join(cs);
      JoinIsWellFormed(cs[1..]);
      assert s == c + Join(cs[1..]);
      assert s[..|c|] == c && s[|c|..] == Join(cs[1..]);
    }
  }

  /** A well-formed string is the concatenation of complete sequences. */
  lemma {:induction false} WellFormedSplit(s: Bytes) returns (cs: seq<Bytes>)
    requires WellFormed(s)
    ensures forall n :: 0 <= n < |cs| ==> WellFormedChar(cs[n])
    ensures Join(cs) == s
    decreases |s|
  {
    if s == [] {
      cs := [];
    } else {
      var len := ByteLen(s[0]);
      var rest := WellFormedSplit(s[len..]);
      cs := [s[..len]] + rest;
      assert cs[1..] == rest;
      assert s == s[..len] + s[len..];
    }
  }

  /**
   * For well-formed input the walk succeeds, every substring is a complete
   * sequence, and joining the substrings in order gives the input byte for byte.
   */
  lemma JoinOfIter(s: Bytes)
    requires WellFormed(s)
    ensures IterUnicodeChars(s).Ok?
    ensures forall n :: 0 <= n < |IterUnicodeChars(s).value| ==> WellFormedChar(IterUnicodeChars(s).value[n].ch)
    ensures Join(ViewChars(IterUnicodeChars(s).value)) == s
  {
    var cs := WellFormedSplit(s);
    IterOfJoin(cs, 0);
  }
}
