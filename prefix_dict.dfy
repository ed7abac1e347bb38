/**
 * The word list as the segmenters see it. The MARISA trie is a finite set of
 * byte strings whose only operation used by the tools is common-prefix
 * search: the keys that are prefixes of a query, reported in increasing
 * length. The `Agent` that carries the search state becomes the sequence the
 * search reports, which the callers walk with a loop.
 */
module PrefixDict {
  import opened ByteStrings

  type Dictionary = set<Bytes>

  /** The keys `q[..m]`, `n <= m <= |q|`, that are in the dictionary, shortest first. */
  function PrefixHitsFrom(d: Dictionary, q: Bytes, n: nat): seq<Bytes>
    requires n <= |q| + 1
    decreases |q| + 1 - n
  {
    if n > |q| then []
    else (if q[..n] in d then [q[..n]] else []) + PrefixHitsFrom(d, q, n + 1)
  }

  /** Every entry of `r` is a key of `d`, a prefix of `q` and at least `n` long. */
  predicate PrefixKeys(d: Dictionary, q: Bytes, r: seq<Bytes>, n: nat) {
    forall i :: 0 <= i < |r| ==> r[i] in d && r[i] <= q && n <= |r[i]|
  }

  /** The entries of `r` grow strictly in length. */
  predicate Lengthening(r: seq<Bytes>) {
    forall i, j :: 0 <= i < j < |r| ==> |r[i]| < |r[j]|
  }

  /** Every key of `d` that is a prefix of `q` at least `n` long is in `r`. */
  predicate AllFound(d: Dictionary, q: Bytes, r: seq<Bytes>, n: nat) {
    forall m :: n <= m <= |q| && q[..m] in d ==> q[..m] in r
  }

  /** The keys found from length `n` on are keys, prefixes of the query, and no shorter than `n`. */
  lemma {:induction false} PrefixHitsFromAreKeys(d: Dictionary, q: Bytes, n: nat)
    requires n <= |q| + 1
    ensures PrefixKeys(d, q, PrefixHitsFrom(d, q, n), n)
    decreases |q| + 1 - n
  {
    if n <= |q| {
      PrefixHitsFromAreKeys(d, q, n + 1);
      var rest := PrefixHitsFrom(d, q, n + 1);
      if q[..n] in d {
        var r := [q[..n]] + rest;
        assert q[..n] <= q;
        forall i | 0 <= i < |r| ensures r[i] in d && r[i] <= q && n <= |r[i]| {
          if i > 0 {
            assert r[i] == rest[i - 1];
          }
        }
      }
    }
  }

  /** The keys found from length `n` on come shortest first. */
  lemma {:induction false} PrefixHitsFromLengthening(d: Dictionary, q: Bytes, n: nat)
    requires n <= |q| + 1
    ensures Lengthening(PrefixHitsFrom(d, q, n))
    decreases |q| + 1 - n
  {
    if n <= |q| {
      PrefixHitsFromLengthening(d, q, n + 1);
      var rest := PrefixHitsFrom(d, q, n + 1);
      if q[..n] in d {
        PrefixHitsFromAreKeys(d, q, n + 1);
        var r := [q[..n]] + rest;
        forall i, j | 0 <= i < j < |r| ensures |r[i]| < |r[j]| {
          assert r[j] == rest[j - 1];
          if i > 0 {
            assert r[i] == rest[i - 1];
          }
        }
      }
    }
  }

  /** Every key that is a prefix of the query at least `n` long is found. */
  lemma {:induction false} PrefixHitsFromFindsAll(d: Dictionary, q: Bytes, n: nat)
    requires n <= |q| + 1
    ensures AllFound(d, q, PrefixHitsFrom(d, q, n), n)
    decreases |q| + 1 - n
  {
    if n <= |q| {
      PrefixHitsFromFindsAll(d, q, n + 1);
      var rest := PrefixHitsFrom(d, q, n + 1);
      var r := PrefixHitsFrom(d, q, n);
      forall m | n <= m <= |q| && q[..m] in d ensures q[..m] in r {
        if m > n {
          assert q[..m] in rest;
        }
      }
    }
  }

  /**
   * `common_prefix_search`: the keys that are prefixes of the query, each
   * reported once, in increasing length.
   */
  function CommonPrefixSearch(d: Dictionary, q: Bytes): seq<Bytes> {
    PrefixHitsFrom(d, q, 0)
  }

  /** Every key reported is a prefix of the query, lengths grow, and every key that is a prefix is reported. */
  lemma CommonPrefixSearchReports(d: Dictionary, q: Bytes)
    ensures var r := CommonPrefixSearch(d, q);
      (forall i :: 0 <= i < |r| ==> r[i] in d && r[i] <= q) &&
      (forall i, j :: 0 <= i < j < |r| ==> |r[i]| < |r[j]|) &&
      (forall m :: 0 <= m <= |q| && q[..m] in d ==> q[..m] in r)
  {
    PrefixHitsFromAreKeys(d, q, 0);
    PrefixHitsFromLengthening(d, q, 0);
    PrefixHitsFromFindsAll(d, q, 0);
    assert CommonPrefixSearch(d, q) == PrefixHitsFrom(d, q, 0);
  }

  /** A key is reported exactly when it is a prefix of the query. */
  lemma ReportedIffPrefixKey(d: Dictionary, q: Bytes, k: Bytes)
    ensures k in CommonPrefixSearch(d, q) <==> k in d && k <= q
  {
    var r := CommonPrefixSearch(d, q);
    CommonPrefixSearchReports(d, q);
    if k in d && k <= q {
      assert k == q[..|k|];
    }
    if k in r {
      var i :| 0 <= i < |r| && r[i] == k;
    }
  }

  /** The last key reported is the longest key that is a prefix of the query. */
  lemma LastReportedIsLongest(d: Dictionary, q: Bytes, k: Bytes)
    requires CommonPrefixSearch(d, q) != []
    requires k in d && k <= q
    ensures |k| <= |CommonPrefixSearch(d, q)[|CommonPrefixSearch(d, q)| - 1]|
  {
    var r := CommonPrefixSearch(d, q);
    CommonPrefixSearchReports(d, q);
    ReportedIffPrefixKey(d, q, k);
    var i :| 0 <= i < |r| && r[i] == k;
  }

  /** Every key reported is a prefix of every longer key reported. */
  lemma HitsArePrefixChain(d: Dictionary, q: Bytes, i: nat, j: nat)
    requires i < j < |CommonPrefixSearch(d, q)|
    ensures CommonPrefixSearch(d, q)[i] < CommonPrefixSearch(d, q)[j]
  {
    var r := CommonPrefixSearch(d, q);
    CommonPrefixSearchReports(d, q);
    assert r[i] == q[..|r[i]|] && r[j] == q[..|r[j]|];
  }
}
