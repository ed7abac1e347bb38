/**
 * Byte strings as the C++ code sees them: `std::string` and `std::string_view`
 * hold bytes, every length and comparison is in bytes, and the
 * `find`/`substr`/`operator<` members used by the tools are modelled here.
 */
module ByteStrings {
  import opened Wrappers

  type Byte = b: int | 0 <= b < 256
  type Bytes = seq<Byte>

  /** The bytes of an ASCII literal (characters beyond ASCII never occur in the literals used). */
  function Ascii(s: string): (r: Bytes)
    ensures |r| == |s|
  {
    seq(|s|, i requires 0 <= i < |s| => (s[i] as int) % 256)
  }

  /** `s.substr(pos, count)`: the count is clamped at the end of the string. */
  function Substr(s: Bytes, pos: nat, count: nat): (r: Bytes)
    requires pos <= |s|
    ensures |r| == if pos + count <= |s| then count else |s| - pos
    ensures r == s[pos..pos + |r|]
  {
    if pos + count <= |s| then s[pos..pos + count] else s[pos..]
  }

  /** `pat` occurs in `s` starting at byte `i`. */
  predicate OccursAt(s: Bytes, pat: Bytes, i: nat) {
    i + |pat| <= |s| && s[i..i + |pat|] == pat
  }

  /**
   * `s.find(pat, pos)`: the first occurrence at or after `pos`, or None for `npos`.
   * An empty pattern is found at `pos` itself whenever `pos <= |s|`.
   */
  function FindFrom(s: Bytes, pat: Bytes, pos: nat): Option<nat>
    decreases |s| + 1 - pos
  {
    if pos + |pat| > |s| then None
    else if s[pos..pos + |pat|] == pat then Some(pos)
    else FindFrom(s, pat, pos + 1)
  }

  /** What `find` reports is an occurrence at or after `pos`. */
  lemma {:induction false} FindFromOccurs(s: Bytes, pat: Bytes, pos: nat)
    ensures FindFrom(s, pat, pos).Some? ==>
      pos <= FindFrom(s, pat, pos).value && OccursAt(s, pat, FindFrom(s, pat, pos).value)
    decreases |s| + 1 - pos
  {
    if pos + |pat| <= |s| && s[pos..pos + |pat|] != pat {
      FindFromOccurs(s, pat, pos + 1);
    }
  }

  /** `find` reports the first occurrence at or after `pos`, and `npos` only when there is none. */
  lemma {:induction false} FindFromFinds(s: Bytes, pat: Bytes, pos: nat)
    ensures var r := FindFrom(s, pat, pos);
      (r.Some? ==> pos <= r.value && OccursAt(s, pat, r.value)) &&
      (r.Some? ==> forall j :: pos <= j < r.value ==> !OccursAt(s, pat, j)) &&
      (r.None? ==> forall j :: pos <= j ==> !OccursAt(s, pat, j))
    decreases |s| + 1 - pos
  {
    if pos + |pat| <= |s| && s[pos..pos + |pat|] != pat {
      FindFromFinds(s, pat, pos + 1);
    }
  }

  /** `std::string_view::contains`. */
  predicate Contains(s: Bytes, pat: Bytes) {
    FindFrom(s, pat, 0).Some?
  }

  /** What `c_str()` hands to a C API: the bytes before the first NUL. */
  function CStr(s: Bytes): (r: Bytes)
    ensures r <= s
    ensures 0 !in r
    ensures |r| < |s| ==> s[|r|] == 0
  {
    FindFromFinds(s, [0], 0);
    match FindFrom(s, [0], 0)
    case Some(i) =>
      assert forall j :: 0 <= j < i ==> !OccursAt(s, [0], j) && s[j..j + 1] == [s[j]];
      s[..i]
    case None =>
      assert forall j :: 0 <= j < |s| ==> !OccursAt(s, [0], j) && s[j..j + 1] == [s[j]];
      s
  }

  /** `std::erase_if(s, p)`: the bytes that do not satisfy `p`, in order. */
  function EraseIf(s: Bytes, p: Byte -> bool): (r: Bytes)
    ensures |r| <= |s|
    ensures forall b :: b in r ==> b in s && !p(b)
    ensures forall b :: b in s && !p(b) ==> b in r
    ensures (forall i :: 0 <= i < |s| ==> !p(s[i])) ==> r == s
    ensures |s| == 1 ==> r == (if p(s[0]) then [] else s)
  {
    if s == [] then []
    else (if p(s[0]) then [] else [s[0]]) + EraseIf(s[1..], p)
  }

  /** Erasing from a concatenation erases from each part, keeping the order of the kept bytes. */
  lemma {:induction false} EraseIfAppend(a: Bytes, b: Bytes, p: Byte -> bool)
    ensures EraseIf(a + b, p) == EraseIf(a, p) + EraseIf(b, p)
  {
    if a == [] {
      assert a + b == b;
    } else {
      var head := if p(a[0]) then [] else [a[0]];
      calc {
        EraseIf(a + b, p);
        { assert (a + b)[0] == a[0] && (a + b)[1..] == a[1..] + b; }
        head + EraseIf(a[1..] + b, p);
        { EraseIfAppend(a[1..], b, p); }
        head + (EraseIf(a[1..], p) + EraseIf(b, p));
        (head + EraseIf(a[1..], p)) + EraseIf(b, p);
      }
    }
  }

  /** Concatenation of all the parts, in order. */
  function Join(parts: seq<Bytes>): (r: Bytes)
  {
    if parts == [] then [] else parts[0] + Join(parts[1..])
  }

  lemma {:induction false} JoinAppend(a: seq<Bytes>, b: seq<Bytes>)
    ensures Join(a + b) == Join(a) + Join(b)
  {
    if a == [] {
      assert a + b == b;
    } else {
      assert (a + b)[1..] == a[1..] + b;
      JoinAppend(a[1..], b);
    }
  }

  /** Lexicographic order on unsigned bytes: `operator<` of `std::string`. */
  predicate Less(a: Bytes, b: Bytes)
  {
    if a == [] then b != []
    else if b == [] then false
    else if a[0] != b[0] then a[0] < b[0]
    else Less(a[1..], b[1..])
  }

  lemma {:induction false} LessIrreflexive(a: Bytes)
    ensures !Less(a, a)
  {
    if a != [] {
      LessIrreflexive(a[1..]);
    }
  }

  lemma {:induction false} LessTransitive(a: Bytes, b: Bytes, c: Bytes)
    requires Less(a, b) && Less(b, c)
    ensures Less(a, c)
  {
    if a != [] && b != [] && c != [] && a[0] == b[0] && b[0] == c[0] {
      LessTransitive(a[1..], b[1..], c[1..]);
    }
  }

  lemma {:induction false} LessTotal(a: Bytes, b: Bytes)
    ensures a == b || Less(a, b) || Less(b, a)
  {
    if a != [] && b != [] && a[0] == b[0] {
      LessTotal(a[1..], b[1..]);
      if a[1..] == b[1..] {
        assert a == [a[0]] + a[1..] && b == [b[0]] + b[1..];
      }
    }
  }

  lemma LessAsymmetric(a: Bytes, b: Bytes)
    ensures !(Less(a, b) && Less(b, a))
  {
    if Less(a, b) && Less(b, a) {
      LessTransitive(a, b, a);
      LessIrreflexive(a);
    }
  }
}
