/**
 * The pagination arithmetic of the book browser: `Array.prototype.slice`, the
 * page shown for a 1-based page number, the "Show more" counter and the
 * button's disabled flag.
 */
module Paging {

  function Min(a: int, b: int): int {
    if a <= b then a else b
  }

  /**
   * `s.slice(start, end)` for non-negative bounds: the elements of `s` from
   * index `start` up to but excluding `end`, with `end` clamped to the length;
   * empty when `start` is at or past the end or `end` is not above `start`.
   */
  function Slice<T>(s: seq<T>, start: nat, end: nat): (r: seq<T>)
    ensures |r| == if start < end && start < |s| then Min(end, |s|) - start else 0
    ensures forall i :: 0 <= i < |r| ==> r[i] == s[start + i]
  {
    if start < end && start < |s| then s[start..Min(end, |s|)] else []
  }

  /** The books displayed for 1-based page `page`: at most `perPage` of them. */
  function PageOf<T>(matches: seq<T>, page: nat, perPage: nat): (r: seq<T>)
    requires page >= 1
    ensures |r| <= perPage
    ensures page * perPage <= |matches| ==> |r| == perPage
  {
    Slice(matches, (page - 1) * perPage, page * perPage)
  }

  /** Page `p + 1` is the slice that starts after the first `p` pages. */
  lemma PageAfter<T>(matches: seq<T>, p: nat, perPage: nat)
    ensures PageOf(matches, p + 1, perPage) == Slice(matches, p * perPage, (p + 1) * perPage)
  {
  }

  /**
   * The counter on the "Show more" button: the raw difference
   * `matches.length - page * perPage`, shown as 0 when it is not positive.
   * It is the number of matches that lie after the first `page` pages.
   */
  function Remaining<T>(matches: seq<T>, page: nat, perPage: nat): (r: nat)
    ensures r == |Slice(matches, page * perPage, |matches|)|
  {
    var raw: int := |matches| - page * perPage;
    if raw > 0 then raw else 0
  }

  /**
   * The button is disabled when the raw difference is not positive: exactly
   * when nothing remains, and (for a positive page size) exactly when the next
   * page would be empty.
   */
  function ShowMoreDisabled<T>(matches: seq<T>, page: nat, perPage: nat): (r: bool)
    ensures r <==> Remaining(matches, page, perPage) == 0
    ensures perPage > 0 ==> (r <==> Slice(matches, page * perPage, (page + 1) * perPage) == [])
  {
    var raw: int := |matches| - page * perPage;
    raw <= 0
  }

  /** Pages 1 to `k` in the order "Show more" displays them, one after the other. */
  function ShownSoFar<T>(matches: seq<T>, k: nat, perPage: nat): seq<T> {
    if k == 0 then [] else ShownSoFar(matches, k - 1, perPage) + PageOf(matches, k, perPage)
  }

  /**
   * Paging through the matches visits them in order, each exactly once: the
   * first `k` pages together are the first `k * perPage` matches (or all of them).
   */
  lemma {:induction false} PagesCoverPrefix<T>(matches: seq<T>, k: nat, perPage: nat)
    ensures ShownSoFar(matches, k, perPage) == matches[..Min(|matches|, k * perPage)]
  {
    if k > 0 {
      PagesCoverPrefix(matches, k - 1, perPage);
      var lo := (k - 1) * perPage;
      var hi := k * perPage;
      assert hi == lo + perPage;
      var page := PageOf(matches, k, perPage);
      if lo < |matches| {
        assert page == matches[lo..Min(|matches|, hi)];
        assert matches[..lo] + matches[lo..Min(|matches|, hi)] == matches[..Min(|matches|, hi)];
      } else {
        assert page == [];
      }
    }
  }

  /** What has been displayed and what the counter shows add up to all matches. */
  lemma ShownPlusRemaining<T>(matches: seq<T>, k: nat, perPage: nat)
    ensures |ShownSoFar(matches, k, perPage)| + Remaining(matches, k, perPage) == |matches|
  {
    PagesCoverPrefix(matches, k, perPage);
  }

  /**
   * Five matches, two per page: page 1 shows the first two with three
   * remaining, page 2 the next two with one remaining, page 3 the last one,
   * after which the button is disabled.
   */
  lemma FiveMatchesTwoPerPage<T>(m: seq<T>)
    requires |m| == 5
    ensures PageOf(m, 1, 2) == m[0..2] && Remaining(m, 1, 2) == 3 && !ShowMoreDisabled(m, 1, 2)
    ensures PageOf(m, 2, 2) == m[2..4] && Remaining(m, 2, 2) == 1 && !ShowMoreDisabled(m, 2, 2)
    ensures PageOf(m, 3, 2) == m[4..5] && Remaining(m, 3, 2) == 0 && ShowMoreDisabled(m, 3, 2)
  {
  }
}
