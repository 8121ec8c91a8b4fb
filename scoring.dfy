/**
 The unit-level score `hadith_global_score`: it combines the per-path scores
 an analyst sets (whole numbers from 0 to 10 on the analysis page) into one
 number rounded to one decimal. Arithmetic is exact over `real`.
 */
module Scoring {

  /** A path with at least this score counts as strong. */
  const StrongScore: int := 7

  /** The cap `min(final, 10)`. */
  const Cap: real := 10.0

  /** `max(scores)`. */
  function Max(scores: seq<int>): (m: int)
    requires scores != []
    ensures m in scores
    ensures forall i :: 0 <= i < |scores| ==> scores[i] <= m
  {
    if |scores| == 1 then scores[0]
    else
      var rest := Max(scores[1..]);
      if scores[0] >= rest then scores[0] else rest
  }

  /** `sum(scores)`. */
  function Sum(scores: seq<int>): int {
    if scores == [] then 0 else scores[0] + Sum(scores[1..])
  }

  /** Scores that are all at most `m` sum to at most `|scores|` times `m`;
      with `m` the maximum, the average never exceeds the maximum. */
  lemma {:induction false} SumAtMost(scores: seq<int>, m: int)
    requires forall i :: 0 <= i < |scores| ==> scores[i] <= m
    ensures Sum(scores) <= |scores| * m
  {
    if scores != [] {
      var k := |scores[1..]|;
      SumAtMost(scores[1..], m);
      assert (k + 1) * m == k * m + m;
    }
  }


  /** `len([s for s in scores if s >= 7])`. */
  function StrongCount(scores: seq<int>): (n: nat)
    ensures n <= |scores|
  {
    if scores == [] then 0
    else (if scores[0] >= StrongScore then 1 else 0) + StrongCount(scores[1..])
  }

  /** `min(x, y)`: the smaller of the two. */
  function Min(x: real, y: real): (m: real)
    ensures m <= x && m <= y && (m == x || m == y)
  {
    if x <= y then x else y
  }

  /** `round(x, 1)`, taken as rounding half up to one decimal: the result
      is within half a tenth of `x`. */
  function Round1(x: real): (r: real)
    ensures x - 0.05 < r <= x + 0.05
  {
    (10.0 * x + 0.5).Floor as real / 10.0
  }

  /** The weighted sum before capping and rounding:
      `0.5 * max + 0.3 * average + 0.2 * strong paths`. */
  function Weighted(scores: seq<int>): (w: real)
    requires scores != []
    ensures w <= 0.8 * Max(scores) as real + 0.2 * StrongCount(scores) as real
    ensures (forall i :: 0 <= i < |scores| ==> scores[i] >= 0) ==> w >= 0.5 * Max(scores) as real
  {
    AverageAtMostMax(scores);
    assert (forall i :: 0 <= i < |scores| ==> scores[i] >= 0) ==> Sum(scores) as real / |scores| as real >= 0.0 by {
      if forall i :: 0 <= i < |scores| ==> scores[i] >= 0 {
        AverageNonNegative(scores);
      }
    }
    0.5 * Max(scores) as real
    + 0.3 * (Sum(scores) as real / |scores| as real)
    + 0.2 * StrongCount(scores) as real
  }

  /** `hadith_global_score(scores)`: 0 for no scores, otherwise the capped,
      rounded weighted sum. The result never exceeds 10. */
  function GlobalScore(scores: seq<int>): (r: real)
    ensures r <= Cap
  {
    if scores == [] then 0.0
    else
      var capped := Min(Weighted(scores), Cap);
      Round1Monotone(capped, Cap);
      Round1(capped)
  }

  // ---------------------------------------------------------------------
  // Rounding
  // ---------------------------------------------------------------------

  /** Rounding never reverses an order, and leaves 0 and 10 alone. */
  lemma Round1Monotone(x: real, y: real)
    requires x <= y
    ensures Round1(x) <= Round1(y)
    ensures Round1(0.0) == 0.0 && Round1(Cap) == Cap
  {
    assert (10.0 * x + 0.5).Floor <= (10.0 * y + 0.5).Floor;
  }

  // ---------------------------------------------------------------------
  // The aggregates
  // ---------------------------------------------------------------------

  /** The sum of non-negative scores is non-negative. */
  lemma {:induction false} SumNonNegative(scores: seq<int>)
    requires forall i :: 0 <= i < |scores| ==> scores[i] >= 0
    ensures Sum(scores) >= 0
  {
    if scores != [] {
      SumNonNegative(scores[1..]);
    }
  }

  /** Raising one score raises the sum by exactly the difference. */
  lemma {:induction false} SumUpdate(scores: seq<int>, i: nat, v: int)
    requires i < |scores|
    ensures Sum(scores[i := v]) == Sum(scores) - scores[i] + v
  {
    if i > 0 {
      SumUpdate(scores[1..], i - 1, v);
      assert scores[i := v][1..] == scores[1..][i - 1 := v];
    }
  }

  /** The positions of the scores that count as strong. */
  function StrongPositions(scores: seq<int>): set<nat> {
    set i: nat | i < |scores| && scores[i] >= StrongScore
  }

  /** Appending one score adds one to the count exactly when it is strong. */
  lemma {:induction false} StrongCountSnoc(scores: seq<int>, x: int)
    ensures StrongCount(scores + [x]) == StrongCount(scores) + (if x >= StrongScore then 1 else 0)
  {
    if scores == [] {
      assert scores + [x] == [x] && [x][1..] == [];
    } else {
      assert (scores + [x])[1..] == scores[1..] + [x];
      StrongCountSnoc(scores[1..], x);
    }
  }

  /** The strong-path count is the number of positions holding a score of at
      least 7. */
  lemma {:induction false} StrongCountPositions(scores: seq<int>)
    ensures StrongCount(scores) == |StrongPositions(scores)|
  {
    if scores != [] {
      var n := |scores| - 1;
      var init := scores[..n];
      StrongCountPositions(init);
      assert scores == init + [scores[n]];
      StrongCountSnoc(init, scores[n]);
      var before := StrongPositions(init);
      assert forall i: nat :: i < n ==> init[i] == scores[i];
      if scores[n] >= StrongScore {
        assert StrongPositions(scores) == before + {n};
      } else {
        assert StrongPositions(scores) == before;
      }
    }
  }

  /** Raising one score never lowers the strong-path count. */
  lemma {:induction false} StrongCountUpdate(scores: seq<int>, i: nat, v: int)
    requires i < |scores| && scores[i] <= v
    ensures StrongCount(scores[i := v]) >= StrongCount(scores)
  {
    if i > 0 {
      StrongCountUpdate(scores[1..], i - 1, v);
      assert scores[i := v][1..] == scores[1..][i - 1 := v];
    }
  }

  /** Raising one score never lowers the maximum. */
  lemma MaxUpdate(scores: seq<int>, i: nat, v: int)
    requires i < |scores| && scores[i] <= v
    ensures Max(scores[i := v]) >= Max(scores)
  {
    var m := Max(scores);
    var j :| 0 <= j < |scores| && scores[j] == m;
    assert scores[i := v][j] >= m;
  }

  /** Sum and strong-path count do not depend on the order of the scores. */
  lemma {:induction false} SumAndCountPermutation(a: seq<int>, b: seq<int>)
    requires multiset(a) == multiset(b)
    ensures Sum(a) == Sum(b) && StrongCount(a) == StrongCount(b)
    decreases |a|
  {
    if a == [] {
      assert |b| == |multiset(b)| == 0;
    } else {
      assert a[0] in multiset(b);
      var j :| 0 <= j < |b| && b[j] == a[0];
      MultisetRemoveFirst(a, b, j);
      SumAndCountPermutation(a[1..], b[..j] + b[j + 1..]);
      RemoveAt(b, j);
    }
  }

  /** Taking the first element out of one list and an equal element out of
      another with the same elements leaves lists with the same elements. */
  lemma MultisetRemoveFirst(a: seq<int>, b: seq<int>, j: nat)
    requires a != [] && j < |b| && b[j] == a[0] && multiset(a) == multiset(b)
    ensures multiset(a[1..]) == multiset(b[..j] + b[j + 1..])
  {
    var b' := b[..j] + b[j + 1..];
    assert a == [a[0]] + a[1..];
    assert b == b[..j] + [b[j]] + b[j + 1..];
    assert multiset(b) == multiset(b[..j]) + multiset{b[j]} + multiset(b[j + 1..]);
    assert multiset(b') == multiset(b) - multiset{a[0]};
    assert multiset(a[1..]) == multiset(a) - multiset{a[0]};
  }

  /** Taking the element at `j` out of the list removes exactly its share of
      the sum and of the strong-path count. */
  lemma {:induction false} RemoveAt(b: seq<int>, j: nat)
    requires j < |b|
    ensures Sum(b) == b[j] + Sum(b[..j] + b[j + 1..])
    ensures StrongCount(b) == (if b[j] >= StrongScore then 1 else 0) + StrongCount(b[..j] + b[j + 1..])
  {
    if j > 0 {
      RemoveAt(b[1..], j - 1);
      assert b[..j] + b[j + 1..] == [b[0]] + (b[1..][..j - 1] + b[1..][j..]);
    } else {
      assert b[..j] + b[j + 1..] == b[1..];
    }
  }

  /** The maximum does not depend on the order of the scores. */
  lemma MaxPermutation(a: seq<int>, b: seq<int>)
    requires a != [] && multiset(a) == multiset(b)
    ensures b != [] && Max(a) == Max(b)
  {
    assert a[0] in multiset(b);
    assert Max(a) in multiset(b) && Max(b) in multiset(a);
  }

  // ---------------------------------------------------------------------
  // Properties of the unit score
  // ---------------------------------------------------------------------

  /** The average never exceeds the maximum. */
  lemma AverageAtMostMax(scores: seq<int>)
    requires scores != []
    ensures Sum(scores) as real / |scores| as real <= Max(scores) as real
  {
    SumAtMost(scores, Max(scores));
    RatioAtMost(Sum(scores), |scores|, Max(scores));
  }

  /** The average of non-negative scores is non-negative. */
  lemma AverageNonNegative(scores: seq<int>)
    requires scores != [] && forall i :: 0 <= i < |scores| ==> scores[i] >= 0
    ensures Sum(scores) as real / |scores| as real >= 0.0
  {
    SumNonNegative(scores);
    DivAtLeastZero(Sum(scores) as real, |scores| as real);
  }

  /** The unit score of a non-empty list of non-negative scores lies in
      [0, 10]; an empty list scores 0. */
  lemma GlobalScoreBounds(scores: seq<int>)
    requires forall i :: 0 <= i < |scores| ==> scores[i] >= 0
    ensures 0.0 <= GlobalScore(scores) <= Cap
    ensures scores == [] ==> GlobalScore(scores) == 0.0
  {
    if scores != [] {
      SumNonNegative(scores);
      assert Max(scores) >= scores[0] >= 0;
      var capped := Min(Weighted(scores), Cap);
      assert capped >= 0.0;
      Round1Monotone(0.0, capped);
    }
  }

  /** A single path scores `round(min(0.8 * s + 0.2 * [s >= 7], 10), 1)`. */
  lemma GlobalScoreSingle(s: int)
    ensures GlobalScore([s]) == Round1(Min(0.8 * s as real + (if s >= StrongScore then 0.2 else 0.0), Cap))
  {
    assert [s][1..] == [];
    assert Max([s]) == s && Sum([s]) == s;
    assert StrongCount([s]) == (if s >= StrongScore then 1 else 0);
  }

  /** The unit score does not depend on the order in which the paths are
      listed. */
  lemma GlobalScorePermutation(a: seq<int>, b: seq<int>)
    requires multiset(a) == multiset(b)
    ensures GlobalScore(a) == GlobalScore(b)
  {
    SumAndCountPermutation(a, b);
    if a != [] {
      MaxPermutation(a, b);
      assert |a| == |multiset(a)| == |multiset(b)| == |b|;
    } else {
      assert |b| == |multiset(b)| == 0;
    }
  }

  /** Raising one path's score, all others held fixed, never lowers the
      unit score. */
  lemma GlobalScoreMonotone(scores: seq<int>, i: nat, v: int)
    requires i < |scores| && scores[i] <= v
    ensures GlobalScore(scores) <= GlobalScore(scores[i := v])
  {
    var raised := scores[i := v];
    SumUpdate(scores, i, v);
    StrongCountUpdate(scores, i, v);
    MaxUpdate(scores, i, v);
    var n := |scores| as real;
    assert Sum(scores) as real / n <= Sum(raised) as real / n by {
      DivMonotone(Sum(scores) as real, Sum(raised) as real, n);
    }
    assert Weighted(scores) <= Weighted(raised);
    Round1Monotone(Min(Weighted(scores), Cap), Min(Weighted(raised), Cap));
  }

  lemma DivAtLeastZero(x: real, n: real)
    requires x >= 0.0 && n > 0.0
    ensures x / n >= 0.0
  {
  }

  /** `s / n <= m` in exact division when `s <= n * m`. */
  lemma RatioAtMost(s: int, n: int, m: int)
    requires n > 0 && s <= n * m
    ensures s as real / n as real <= m as real
  {
    assert (n * m) as real == n as real * m as real;
    DivAtMost(s as real, n as real, m as real);
  }

  lemma DivAtMost(x: real, n: real, t: real)
    requires n > 0.0 && x <= n * t
    ensures x / n <= t
  {
    var q := x / n;
    assert n * q == x;
    if q > t {
      assert n * q > n * t;
    }
  }

  lemma DivMonotone(x: real, y: real, n: real)
    requires x <= y && n > 0.0
    ensures x / n <= y / n
  {
    assert y / n - x / n == (y - x) / n;
  }
}
