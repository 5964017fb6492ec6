/**
 * Order-preserving subsequences, the relation between the catalog and the
 * result of filtering it.
 */
module Subsequences {

  /** `idx` picks, in increasing order, the positions of `s` that spell out `r`. */
  ghost predicate Embeds<T>(idx: seq<int>, r: seq<T>, s: seq<T>) {
    |idx| == |r| &&
    (forall k {:trigger idx[k]} :: 0 <= k < |idx| ==> 0 <= idx[k] < |s| && r[k] == s[idx[k]]) &&
    (forall j, k :: 0 <= j < k < |idx| ==> idx[j] < idx[k])
  }

  /** `r` can be obtained from `s` by deleting elements, keeping the order of the rest. */
  ghost predicate SubsequenceOf<T>(r: seq<T>, s: seq<T>) {
    exists idx :: Embeds(idx, r, s)
  }

  lemma SubsequenceOfSelf<T>(s: seq<T>)
    ensures SubsequenceOf(s, s)
  {
    var idx := seq(|s|, k => k);
    assert Embeds(idx, s, s);
  }

  /** Putting an element in front of the larger sequence keeps a subsequence one. */
  lemma SubsequenceSkip<T>(x: T, r: seq<T>, s: seq<T>)
    requires SubsequenceOf(r, s)
    ensures SubsequenceOf(r, [x] + s)
  {
    var idx :| Embeds(idx, r, s);
    var shifted := seq(|idx|, k requires 0 <= k < |idx| => idx[k] + 1);
    assert Embeds(shifted, r, [x] + s);
  }

  /** Putting the same element in front of both keeps a subsequence one. */
  lemma SubsequenceKeep<T>(x: T, r: seq<T>, s: seq<T>)
    requires SubsequenceOf(r, s)
    ensures SubsequenceOf([x] + r, [x] + s)
  {
    var idx :| Embeds(idx, r, s);
    var shifted := [0] + seq(|idx|, k requires 0 <= k < |idx| => idx[k] + 1);
    assert Embeds(shifted, [x] + r, [x] + s);
  }

  /**
   * A non-empty subsequence either starts with the first element of `s` and
   * continues as a subsequence of the rest of `s`, or is a subsequence of the
   * rest of `s` altogether.
   */
  lemma SubsequenceCases<T>(r: seq<T>, s: seq<T>)
    requires SubsequenceOf(r, s) && r != []
    ensures s != []
    ensures (r[0] == s[0] && SubsequenceOf(r[1..], s[1..])) || SubsequenceOf(r, s[1..])
  {
    var idx :| Embeds(idx, r, s);
    assert 0 <= idx[0] < |s|;
    if idx[0] == 0 {
      var rest := seq(|idx| - 1, k requires 0 <= k < |idx| - 1 => idx[k + 1] - 1);
      forall k | 0 <= k < |rest| ensures 0 <= rest[k] < |s| - 1 && r[1..][k] == s[1..][rest[k]] {
        assert idx[0] < idx[k + 1];
      }
      assert Embeds(rest, r[1..], s[1..]);
    } else {
      var rest := seq(|idx|, k requires 0 <= k < |idx| => idx[k] - 1);
      forall k | 0 <= k < |rest| ensures 0 <= rest[k] < |s| - 1 && r[k] == s[1..][rest[k]] {
        assert k == 0 || idx[0] < idx[k];
      }
      assert Embeds(rest, r, s[1..]);
    }
  }

  /** A subsequence holds each value at most as often as the sequence it is taken from. */
  lemma {:induction false} SubsequenceMultiset<T>(r: seq<T>, s: seq<T>)
    requires SubsequenceOf(r, s)
    ensures multiset(r) <= multiset(s)
    decreases |s|
  {
    if r != [] {
      SubsequenceCases(r, s);
      assert s == [s[0]] + s[1..];
      if r[0] == s[0] && SubsequenceOf(r[1..], s[1..]) {
        SubsequenceMultiset(r[1..], s[1..]);
        assert r == [r[0]] + r[1..];
      } else {
        SubsequenceMultiset(r, s[1..]);
      }
    }
  }
}
