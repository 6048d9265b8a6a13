/** Order-preserving selection: what a list comprehension with a condition keeps
    of the sequence it scans. */
module Sequences {

  /** `idx` lists, in increasing order, the positions in `s` of the elements of `r`. */
  ghost predicate Embeds<T>(idx: seq<nat>, r: seq<T>, s: seq<T>) {
    |idx| == |r| &&
    (forall k :: 0 <= k < |idx| ==> idx[k] < |s| && r[k] == s[idx[k]]) &&
    (forall k, l :: 0 <= k < l < |idx| ==> idx[k] < idx[l])
  }

  /** `r` is `s` with some elements deleted and the rest kept in order. */
  ghost predicate Subsequence<T>(r: seq<T>, s: seq<T>) {
    exists idx :: Embeds(idx, r, s)
  }

  /** Positions in `s[1..]` moved to positions in `s`. */
  function Shift(idx: seq<nat>): (r: seq<nat>)
    ensures |r| == |idx| && forall k :: 0 <= k < |r| ==> r[k] == idx[k] + 1
  {
    seq(|idx|, k requires 0 <= k < |idx| => idx[k] + 1)
  }

  lemma EmptySubsequence<T>(s: seq<T>)
    ensures Subsequence([], s)
  {
    assert Embeds([], [], s);
  }

  /** A subsequence of `s[1..]` is one of `s`. */
  lemma SubsequenceSkip<T>(r: seq<T>, s: seq<T>)
    requires s != [] && Subsequence(r, s[1..])
    ensures Subsequence(r, s)
  {
    var idx :| Embeds(idx, r, s[1..]);
    assert Embeds(Shift(idx), r, s);
  }

  /** A subsequence of `s[1..]` with `s[0]` put in front is one of `s`. */
  lemma SubsequenceKeep<T>(r: seq<T>, s: seq<T>)
    requires s != [] && Subsequence(r, s[1..])
    ensures Subsequence([s[0]] + r, s)
  {
    var idx :| Embeds(idx, r, s[1..]);
    var j := [0] + Shift(idx);
    forall k | 0 <= k < |j| ensures j[k] < |s| && ([s[0]] + r)[k] == s[j[k]] {
      if k > 0 { assert j[k] == idx[k - 1] + 1; }
    }
    assert Embeds(j, [s[0]] + r, s);
  }

  /** Every element of a subsequence of `s` is an element of `s`. */
  lemma SubsequenceMembers<T>(r: seq<T>, s: seq<T>)
    requires Subsequence(r, s)
    ensures forall k :: 0 <= k < |r| ==> r[k] in s
  {
    var idx :| Embeds(idx, r, s);
    forall k | 0 <= k < |r| ensures r[k] in s {
      assert r[k] == s[idx[k]];
    }
  }
}
