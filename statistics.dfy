/** The statistics helpers: sums and the most viewed listing, each a `reduce` over the list. */
module Statistics {
  import opened Wrappers
  import opened Listing
  import Likes

  /** A left fold from 0 that adds `measure` of each listing, as `reduce((acc, s) => acc + ..., 0)` does. */
  function SumBy(startups: seq<Startup>, measure: Startup -> int): int {
    if startups == [] then 0
    else SumBy(startups[..|startups| - 1], measure) + measure(startups[|startups| - 1])
  }

  /** The fold is additive over concatenation. */
  lemma {:induction false} SumByAppend(a: seq<Startup>, b: seq<Startup>, measure: Startup -> int)
    ensures SumBy(a + b, measure) == SumBy(a, measure) + SumBy(b, measure)
    decreases |b|
  {
    if b == [] {
      assert a + b == a;
    } else {
      var ab := a + b;
      assert ab[..|ab| - 1] == a + b[..|b| - 1];
      assert ab[|ab| - 1] == b[|b| - 1];
      SumByAppend(a, b[..|b| - 1], measure);
    }
  }

  /** Dropping the element at `i` removes one occurrence of it. */
  lemma RemoveAt<T>(s: seq<T>, i: int)
    requires 0 <= i < |s|
    ensures multiset(s[..i] + s[i + 1..]) == multiset(s) - multiset{s[i]}
  {
    assert s == s[..i] + [s[i]] + s[i + 1..];
  }

  /** The fold does not depend on the order of the listings. */
  lemma {:induction false} SumByPermutation(a: seq<Startup>, b: seq<Startup>, measure: Startup -> int)
    requires multiset(a) == multiset(b)
    ensures SumBy(a, measure) == SumBy(b, measure)
    decreases |a|
  {
    if a != [] {
      var front, last := a[..|a| - 1], a[|a| - 1];
      assert last in multiset(b) by {
        assert a == front + [last];
      }
      var i :| 0 <= i < |b| && b[i] == last;
      var rest := b[..i] + b[i + 1..];
      RemoveAt(a, |a| - 1);
      RemoveAt(b, i);
      assert a[..|a| - 1] + a[|a|..] == front;
      SumByPermutation(front, rest, measure);
      SumByWithout(a, |a| - 1, measure);
      SumByWithout(b, i, measure);
    }
  }

  /** The fold is the fold without the element at `i`, plus that element's measure. */
  lemma SumByWithout(s: seq<Startup>, i: int, measure: Startup -> int)
    requires 0 <= i < |s|
    ensures SumBy(s, measure) == SumBy(s[..i] + s[i + 1..], measure) + measure(s[i])
  {
    var left, x, right := s[..i], s[i], s[i + 1..];
    calc {
      SumBy(s, measure);
      { SplitAt(s, i); }
      SumBy((left + [x]) + right, measure);
      { SumByAppend(left + [x], right, measure); }
      SumBy(left + [x], measure) + SumBy(right, measure);
      { SumByAppend(left, [x], measure); SumByOne(x, measure); }
      SumBy(left, measure) + measure(x) + SumBy(right, measure);
      { SumByAppend(left, right, measure); }
      SumBy(left + right, measure) + measure(x);
    }
  }

  /** A sequence is its part before `i`, its element at `i` and its part after. */
  lemma SplitAt<T>(s: seq<T>, i: int)
    requires 0 <= i < |s|
    ensures s == (s[..i] + [s[i]]) + s[i + 1..]
  {
  }

  /** A single listing contributes its measure. */
  lemma SumByOne(x: Startup, measure: Startup -> int)
    ensures SumBy([x], measure) == measure(x)
  {
    assert [x][..0] == [];
  }

  /** `startup.likes?.length || 0` */
  function LikesMeasure(s: Startup): int {
    Likes.GetLikeCount(s.likes)
  }

  /** `calculateTotalViews`: the sum of the view counts, missing ones counted as 0. */
  function CalculateTotalViews(startups: seq<Startup>): int {
    SumBy(startups, ViewsOrZero)
  }

  /** `calculateTotalLikes`: the sum of the like counts, missing arrays counted as 0. */
  function CalculateTotalLikes(startups: seq<Startup>): int {
    SumBy(startups, LikesMeasure)
  }

  /** Totals of a concatenation are the sums of the parts; an empty list totals 0. */
  lemma TotalsAdditive(a: seq<Startup>, b: seq<Startup>)
    ensures CalculateTotalViews(a + b) == CalculateTotalViews(a) + CalculateTotalViews(b)
    ensures CalculateTotalLikes(a + b) == CalculateTotalLikes(a) + CalculateTotalLikes(b)
    ensures CalculateTotalViews([]) == 0 && CalculateTotalLikes([]) == 0
  {
    SumByAppend(a, b, ViewsOrZero);
    SumByAppend(a, b, LikesMeasure);
  }

  /** A one-listing list totals that listing's views and likes. */
  lemma TotalsOfOne(s: Startup)
    ensures CalculateTotalViews([s]) == ViewsOrZero(s)
    ensures CalculateTotalLikes([s]) == Likes.GetLikeCount(s.likes)
  {
    assert [s][..0] == [];
    assert SumBy([s], ViewsOrZero) == SumBy([], ViewsOrZero) + ViewsOrZero(s);
    assert SumBy([s], LikesMeasure) == SumBy([], LikesMeasure) + LikesMeasure(s);
  }

  /** Reordering the list, as sorting does, leaves both totals unchanged. */
  lemma TotalsUnderPermutation(a: seq<Startup>, b: seq<Startup>)
    requires multiset(a) == multiset(b)
    ensures CalculateTotalViews(a) == CalculateTotalViews(b)
    ensures CalculateTotalLikes(a) == CalculateTotalLikes(b)
  {
    SumByPermutation(a, b, ViewsOrZero);
    SumByPermutation(a, b, LikesMeasure);
  }

  /** The total likes are never negative. */
  lemma {:induction false} TotalLikesNonNegative(startups: seq<Startup>)
    ensures CalculateTotalLikes(startups) >= 0
  {
    if startups != [] {
      TotalLikesNonNegative(startups[..|startups| - 1]);
    }
  }

  /**
   * The `reduce` without an initial value: starts from the first listing
   * and replaces the current top only by a strictly greater view count.
   */
  function TopByViews(startups: seq<Startup>): (top: Startup)
    requires startups != []
    ensures top in startups
    ensures forall i :: 0 <= i < |startups| ==> ViewsOrZero(startups[i]) <= ViewsOrZero(top)
  {
    if |startups| == 1 then startups[0]
    else
      var top := TopByViews(startups[..|startups| - 1]);
      var current := startups[|startups| - 1];
      if ViewsOrZero(current) > ViewsOrZero(top) then current else top
  }

  /** `findTopStartupByViews`: null for an empty list, otherwise a listing with the most views. */
  function FindTopStartupByViews(startups: seq<Startup>): (r: Option<Startup>)
    ensures r.None? <==> startups == []
    ensures r.Some? ==> r.value in startups
    ensures r.Some? ==> forall s :: s in startups ==> ViewsOrZero(s) <= ViewsOrZero(r.value)
  {
    if |startups| == 0 then None else Some(TopByViews(startups))
  }

  /** `i` is the position of the first listing with the most views. */
  ghost predicate FirstMaximumAt(startups: seq<Startup>, i: int) {
    0 <= i < |startups|
    && (forall j :: 0 <= j < |startups| ==> ViewsOrZero(startups[j]) <= ViewsOrZero(startups[i]))
    && (forall j :: 0 <= j < i ==> ViewsOrZero(startups[j]) < ViewsOrZero(startups[i]))
  }

  /** Ties go to the earliest listing: the top is the first listing with the most views. */
  lemma {:induction false} TopIsFirstMaximum(startups: seq<Startup>) returns (i: nat)
    requires startups != []
    ensures FirstMaximumAt(startups, i) && startups[i] == TopByViews(startups)
    decreases |startups|
  {
    if |startups| == 1 {
      i := 0;
    } else {
      var front := startups[..|startups| - 1];
      var k := TopIsFirstMaximum(front);
      var last := |startups| - 1;
      if ViewsOrZero(startups[last]) > ViewsOrZero(TopByViews(front)) {
        i := last;
        forall j | 0 <= j < last ensures ViewsOrZero(startups[j]) < ViewsOrZero(startups[i]) {
          assert startups[j] == front[j];
        }
      } else {
        i := k;
        forall j | 0 <= j < |startups| ensures ViewsOrZero(startups[j]) <= ViewsOrZero(startups[i]) {
          if j < last {
            assert startups[j] == front[j];
          }
        }
        forall j | 0 <= j < i ensures ViewsOrZero(startups[j]) < ViewsOrZero(startups[i]) {
          assert startups[j] == front[j];
        }
      }
    }
  }

  /** The same for `findTopStartupByViews` on a non-empty list. */
  lemma FindTopIsFirstMaximum(startups: seq<Startup>)
    requires startups != []
    ensures exists i :: FirstMaximumAt(startups, i) && Some(startups[i]) == FindTopStartupByViews(startups)
  {
    var i := TopIsFirstMaximum(startups);
  }
}
