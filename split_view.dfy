/**
 * C++20 `std::views::split` on a single delimiter byte, as used for the
 * `--show-fields` list of gd-ankisearch (src/anki_search.cpp) and the lines
 * of the Massif page (src/massif.cpp): an empty range has no pieces;
 * otherwise every delimiter separates two pieces, empty ones included.
 */
module SplitView {
  import opened ByteStrings

  /** The pieces of `s` between delimiters; there is always at least one, possibly empty. */
  function Pieces(s: Bytes, sep: Byte): (r: seq<Bytes>)
    ensures |r| >= 1
  {
    if s == [] then [[]]
    else
      var tail := Pieces(s[1..], sep);
      if s[0] == sep then [[]] + tail
      else [[s[0]] + tail[0]] + tail[1..]
  }

  /** `s | views::split(sep)`. */
  function Split(s: Bytes, sep: Byte): seq<Bytes> {
    if s == [] then [] else Pieces(s, sep)
  }

  /** The pieces put back together with the delimiter between neighbours. */
  function Join(parts: seq<Bytes>, sep: Byte): Bytes {
    if |parts| == 0 then []
    else if |parts| == 1 then parts[0]
    else parts[0] + [sep] + Join(parts[1..], sep)
  }

  predicate NoSep(s: Bytes, sep: Byte) {
    sep !in s
  }

  /** Joining the pieces gives the text back. */
  lemma {:induction false} JoinPieces(s: Bytes, sep: Byte)
    ensures Join(Pieces(s, sep), sep) == s
  {
    if s != [] {
      JoinPieces(s[1..], sep);
      var tail := Pieces(s[1..], sep);
      if s[0] == sep {
        assert Join([[]] + tail, sep) == [] + [sep] + Join(tail, sep);
        assert s == [s[0]] + s[1..];
      } else {
        var r := [[s[0]] + tail[0]] + tail[1..];
        if |tail| == 1 {
          assert Join(r, sep) == [s[0]] + tail[0];
        } else {
          assert r[1..] == tail[1..];
          assert Join(tail, sep) == tail[0] + [sep] + Join(tail[1..], sep);
          assert Join(r, sep) == ([s[0]] + tail[0]) + [sep] + Join(tail[1..], sep);
        }
        assert s == [s[0]] + s[1..];
      }
    }
  }

  /** No piece contains the delimiter. */
  lemma {:induction false} PiecesHaveNoSep(s: Bytes, sep: Byte)
    ensures forall k :: 0 <= k < |Pieces(s, sep)| ==> NoSep(Pieces(s, sep)[k], sep)
  {
    if s != [] {
      PiecesHaveNoSep(s[1..], sep);
      var tail := Pieces(s[1..], sep);
      if s[0] != sep {
        assert NoSep(tail[0], sep);
        var r := Pieces(s, sep);
        forall k | 0 <= k < |r|
          ensures NoSep(r[k], sep)
        {
          if k > 0 {
            assert r[k] == tail[k];
          }
        }
      }
    }
  }

  /** There is one piece more than there are delimiters. */
  lemma {:induction false} PieceCount(s: Bytes, sep: Byte)
    ensures |Pieces(s, sep)| == multiset(s)[sep] + 1
  {
    if s != [] {
      PieceCount(s[1..], sep);
      assert s == [s[0]] + s[1..];
      assert multiset(s) == multiset([s[0]]) + multiset(s[1..]);
    }
  }

  /** A text without the delimiter is a single piece. */
  lemma {:induction false} PiecesOfText(p: Bytes, sep: Byte)
    requires NoSep(p, sep)
    ensures Pieces(p, sep) == [p]
  {
    if p != [] {
      assert NoSep(p[1..], sep) by {
        assert forall i :: 0 <= i < |p[1..]| ==> p[1..][i] == p[i + 1];
      }
      PiecesOfText(p[1..], sep);
      assert [p[0]] + p[1..] == p;
    }
  }

  /** Delimiter-free pieces, joined and split again, come back unchanged. */
  lemma {:induction false} PiecesOfJoin(parts: seq<Bytes>, sep: Byte)
    requires |parts| >= 1
    requires forall k :: 0 <= k < |parts| ==> NoSep(parts[k], sep)
    ensures Pieces(Join(parts, sep), sep) == parts
    decreases |parts|, |parts[0]|
  {
    var p := parts[0];
    if |parts| == 1 {
      PiecesOfText(p, sep);
    } else if p == [] {
      var rest := parts[1..];
      PiecesOfJoin(rest, sep);
      var j := Join(parts, sep);
      assert j == [sep] + Join(rest, sep);
      assert j[1..] == Join(rest, sep);
      assert Pieces(j, sep) == [[]] + rest;
      assert [[]] + rest == parts;
    } else {
      var shorter := [p[1..]] + parts[1..];
      assert NoSep(p[1..], sep) by {
        assert forall i :: 0 <= i < |p[1..]| ==> p[1..][i] == p[i + 1];
      }
      assert forall k :: 1 <= k < |shorter| ==> shorter[k] == parts[k];
      PiecesOfJoin(shorter, sep);
      var j := Join(parts, sep);
      assert shorter[1..] == parts[1..];
      assert j == p + [sep] + Join(parts[1..], sep);
      assert Join(shorter, sep) == p[1..] + [sep] + Join(parts[1..], sep);
      assert j == [p[0]] + Join(shorter, sep);
      assert j[1..] == Join(shorter, sep);
      assert p[0] != sep;
      assert [p[0]] + p[1..] == p;
      assert Pieces(j, sep) == [[p[0]] + p[1..]] + parts[1..];
    }
  }

  /**
   * Splitting a non-empty text and joining the pieces gives the text back,
   * with one piece more than there are delimiters; no piece contains the
   * delimiter; only the empty text has no pieces.
   */
  lemma SplitRoundTrip(s: Bytes, sep: Byte)
    ensures s != [] ==> Join(Split(s, sep), sep) == s && |Split(s, sep)| == multiset(s)[sep] + 1
    ensures forall k :: 0 <= k < |Split(s, sep)| ==> NoSep(Split(s, sep)[k], sep)
    ensures s == [] <==> Split(s, sep) == []
  {
    JoinPieces(s, sep);
    PiecesHaveNoSep(s, sep);
    PieceCount(s, sep);
  }

  /**
   * The other direction: delimiter-free pieces joined and split again come
   * back unchanged, unless the list is a single empty piece, whose join is
   * the empty text.
   */
  lemma SplitOfJoin(parts: seq<Bytes>, sep: Byte)
    requires forall k :: 0 <= k < |parts| ==> NoSep(parts[k], sep)
    requires parts != [[]]
    ensures Split(Join(parts, sep), sep) == parts
  {
    if |parts| >= 1 {
      PiecesOfJoin(parts, sep);
      assert Pieces([], sep) == [[]];
    }
  }
}
