/**
 * `JpSet`: a `std::set<std::string>` whose comparator orders strings by an
 * image of them (their katakana form in the segmenter) under unsigned
 * lexicographic order. Two strings with the same image are one element, and
 * `emplace` keeps the spelling that arrived first. The set is kept as the
 * sequence of its elements in iteration order.
 */
module JpSets {
  import opened ByteStrings

  type Image = Bytes -> Bytes

  /** Iteration order: images strictly increasing, hence pairwise distinct. */
  predicate Ordered(s: seq<Bytes>, key: Image) {
    forall i, j :: 0 <= i < j < |s| ==> Less(key(s[i]), key(s[j]))
  }

  /** Some element has the same image as `x`: the set "contains" `x`. */
  predicate Holds(s: seq<Bytes>, x: Bytes, key: Image) {
    exists y :: y in s && key(y) == key(x)
  }

  /** `emplace(x)`: no change when an element with the same image is there, else `x` in order. */
  function Insert(s: seq<Bytes>, x: Bytes, key: Image): (r: seq<Bytes>)
    requires Ordered(s, key)
    ensures Ordered(r, key)
    ensures Holds(s, x, key) ==> r == s
    ensures !Holds(s, x, key) ==> forall y :: y in r <==> y in s || y == x
    ensures !Holds(s, x, key) ==> |r| == |s| + 1
  {
    if s == [] then [x]
    else if key(x) == key(s[0]) then s
    else if Less(key(x), key(s[0])) then
      InsertBeforeHead(s, x, key);
      [x] + s
    else
      var rest := Insert(s[1..], x, key);
      InsertAfterHead(s, x, key, rest);
      [s[0]] + rest
  }

  /** An image below the first one is below all of them, so `x` goes first. */
  lemma InsertBeforeHead(s: seq<Bytes>, x: Bytes, key: Image)
    requires Ordered(s, key) && s != [] && Less(key(x), key(s[0]))
    ensures !Holds(s, x, key) && Ordered([x] + s, key)
  {
    forall j | 0 <= j < |s| ensures Less(key(x), key(s[j])) && key(s[j]) != key(x) {
      if j > 0 {
        LessTransitive(key(x), key(s[0]), key(s[j]));
      }
      LessIrreflexive(key(x));
    }
  }

  /** An image above the first one: the first element stays in front of the insertion into the rest. */
  lemma InsertAfterHead(s: seq<Bytes>, x: Bytes, key: Image, rest: seq<Bytes>)
    requires Ordered(s, key) && s != [] && key(x) != key(s[0]) && !Less(key(x), key(s[0]))
    requires Ordered(rest, key) && forall y :: y in rest ==> y in s[1..] || y == x
    ensures Ordered([s[0]] + rest, key)
    ensures Holds(s, x, key) <==> Holds(s[1..], x, key)
  {
    LessTotal(key(x), key(s[0]));
    assert s == [s[0]] + s[1..];
    forall y | y in rest ensures Less(key(s[0]), key(y)) {
      if y != x {
        var i :| 0 <= i < |s[1..]| && s[1..][i] == y;
        assert s[i + 1] == y;
      }
    }
  }

  /** The set after emplacing the elements of `xs` one after another. */
  function InsertAll(s: seq<Bytes>, xs: seq<Bytes>, key: Image): (r: seq<Bytes>)
    requires Ordered(s, key)
    ensures Ordered(r, key)
    decreases |xs|
  {
    if xs == [] then s else InsertAll(Insert(s, xs[0], key), xs[1..], key)
  }

  /** Emplacing `xs` and then `x` is emplacing `xs + [x]`. */
  lemma {:induction false} InsertAllSnoc(s: seq<Bytes>, xs: seq<Bytes>, x: Bytes, key: Image)
    requires Ordered(s, key)
    ensures InsertAll(s, xs + [x], key) == Insert(InsertAll(s, xs, key), x, key)
    decreases |xs|
  {
    if xs == [] {
      assert xs + [x] == [x];
    } else {
      assert (xs + [x])[1..] == xs[1..] + [x];
      InsertAllSnoc(Insert(s, xs[0], key), xs[1..], x, key);
    }
  }

  /** The set after `xs` and the first `i` elements of `ys`, with `ys[i]` emplaced: `ys[i]` is one more element. */
  lemma InsertAllStep(xs: seq<Bytes>, ys: seq<Bytes>, i: nat, key: Image, s: seq<Bytes>)
    requires i < |ys| && s == InsertAll([], xs + ys[..i], key)
    ensures Ordered(s, key) && Insert(s, ys[i], key) == InsertAll([], xs + ys[..i + 1], key)
  {
    assert xs + ys[..i + 1] == xs + ys[..i] + [ys[i]];
    InsertAllSnoc([], xs + ys[..i], ys[i], key);
  }

  /** Emplacing never loses an image. */
  lemma InsertHolds(s: seq<Bytes>, x: Bytes, y: Bytes, key: Image)
    requires Ordered(s, key)
    ensures Holds(Insert(s, x, key), x, key)
    ensures Holds(s, y, key) ==> Holds(Insert(s, x, key), y, key)
  {
    var r := Insert(s, x, key);
    if !Holds(s, x, key) {
      assert x in r;
    }
    if Holds(s, y, key) {
      var z :| z in s && key(z) == key(y);
      if !Holds(s, x, key) {
        assert z in r;
      }
    }
  }

  /** Every element after emplacing `xs` came from `s` or from `xs`. */
  lemma {:induction false} InsertAllFrom(s: seq<Bytes>, xs: seq<Bytes>, key: Image)
    requires Ordered(s, key)
    ensures forall y :: y in InsertAll(s, xs, key) ==> y in s || y in xs
    decreases |xs|
  {
    if xs != [] {
      var s' := Insert(s, xs[0], key);
      InsertAllFrom(s', xs[1..], key);
      forall y | y in InsertAll(s, xs, key) ensures y in s || y in xs {
        if y in xs[1..] {
          assert y in xs;
        }
      }
    }
  }

  /** Every string of `s` and of `xs` has an element with its image afterwards. */
  lemma {:induction false} InsertAllHolds(s: seq<Bytes>, xs: seq<Bytes>, key: Image)
    requires Ordered(s, key)
    ensures forall x :: x in s || x in xs ==> Holds(InsertAll(s, xs, key), x, key)
    decreases |xs|
  {
    if xs != [] {
      var s' := Insert(s, xs[0], key);
      InsertAllHolds(s', xs[1..], key);
      var r := InsertAll(s, xs, key);
      forall x | x in s || x in xs ensures Holds(r, x, key) {
        InsertHolds(s, xs[0], x, key);
        if x in s {
          assert Holds(s, x, key);
          var z :| z in s' && key(z) == key(x);
          assert Holds(r, z, key);
        } else if x == xs[0] {
          var z :| z in s' && key(z) == key(x);
          assert Holds(r, z, key);
        } else {
          assert x in xs[1..];
        }
      }
    }
  }

  /** `xs[i]` is `y`, and no string of `xs` before it has its image. */
  predicate FirstWith(xs: seq<Bytes>, y: Bytes, key: Image, i: int) {
    0 <= i < |xs| && xs[i] == y && !Holds(xs[..i], y, key)
  }

  /**
   * An element that was not in `s` is the first string of `xs` with its image,
   * and no string of `s` had that image: `emplace` keeps the first spelling.
   */
  lemma {:induction false} InsertAllKeepsFirst(s: seq<Bytes>, xs: seq<Bytes>, key: Image)
    requires Ordered(s, key)
    ensures forall y :: y in InsertAll(s, xs, key) && y !in s ==>
      !Holds(s, y, key) && exists i :: FirstWith(xs, y, key, i)
    decreases |xs|
  {
    if xs != [] {
      var s' := Insert(s, xs[0], key);
      InsertAllKeepsFirst(s', xs[1..], key);
      var r := InsertAll(s, xs, key);
      forall y | y in r && y !in s
        ensures !Holds(s, y, key) && exists i :: FirstWith(xs, y, key, i)
      {
        if y in s' {
          assert y == xs[0] && !Holds(s, xs[0], key);
          assert xs[..0] == [];
          assert FirstWith(xs, y, key, 0);
        } else {
          FromLaterInsert(s, s', xs, y, key);
        }
      }
    }
  }

  lemma FromLaterInsert(s: seq<Bytes>, s': seq<Bytes>, xs: seq<Bytes>, y: Bytes, key: Image)
    requires Ordered(s, key) && xs != [] && s' == Insert(s, xs[0], key)
    requires y !in s'
    requires !Holds(s', y, key) && exists i :: FirstWith(xs[1..], y, key, i)
    ensures !Holds(s, y, key) && exists i :: FirstWith(xs, y, key, i)
  {
    var i :| FirstWith(xs[1..], y, key, i);
    InsertHolds(s, xs[0], y, key);
    assert key(xs[0]) != key(y) by {
      var z :| z in s' && key(z) == key(xs[0]);
    }
    var pre := xs[..i + 1];
    assert pre == [xs[0]] + xs[1..][..i];
    assert !Holds(pre, y, key) by {
      forall z | z in pre ensures key(z) != key(y) {
        if z != xs[0] {
          assert z in xs[1..][..i];
        }
      }
    }
    assert FirstWith(xs, y, key, i + 1);
  }
}
