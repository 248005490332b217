/**
 * The score of an attempt and the average shown in the statistics, both
 * computed with Python's `round`, i.e. to the nearest integer with ties
 * going to the even neighbour.
 */
module Score {

  /**
   * `round(n / d)` evaluated exactly: the integer nearest to n/d, the even
   * one of the two when n/d lies halfway between them.
   */
  function RoundHalfEven(n: nat, d: nat): nat
    requires d > 0
  {
    var q, m := n / d, n % d;
    if 2 * m < d then q else if 2 * m > d then q + 1 else if q % 2 == 0 then q else q + 1
  }

  /** `n/d` lies within one half of `r`. */
  predicate Nearest(n: nat, d: nat, r: nat) {
    2 * n <= 2 * (r * d) + d && 2 * (r * d) <= 2 * n + d
  }

  /** `n/d` lies exactly halfway between `r` and a neighbour. */
  predicate Tie(n: nat, d: nat, r: nat) {
    2 * n == 2 * (r * d) + d || 2 * (r * d) == 2 * n + d
  }

  /** The rounded quotient is a nearest integer, and the even one at a tie. */
  lemma RoundNearest(n: nat, d: nat)
    requires d > 0
    ensures var r := RoundHalfEven(n, d); Nearest(n, d, r) && (Tie(n, d, r) ==> r % 2 == 0)
  {
    var q, m := n / d, n % d;
    assert n == q * d + m;
    var r := RoundHalfEven(n, d);
    if r == q {
      assert r * d == q * d;
      assert 2 * m <= d;
    } else {
      assert r * d == q * d + d;
      assert 2 * m >= d;
    }
  }

  /** Each step up in the factor `a` adds `d` to the product `a * d`. */
  lemma {:induction false} MulGrows(a: nat, b: nat, d: nat)
    requires a < b
    ensures a * d + d <= b * d
    decreases b - a
  {
    if a + 1 < b {
      MulGrows(a + 1, b, d);
    }
    assert (a + 1) * d == a * d + d;
  }

  /** The nearest integer is unique except at ties, where the even one is chosen: the result is determined. */
  lemma RoundUnique(n: nat, d: nat, r: nat)
    requires d > 0
    requires Nearest(n, d, r) && (Tie(n, d, r) ==> r % 2 == 0)
    ensures r == RoundHalfEven(n, d)
  {
    var s := RoundHalfEven(n, d);
    RoundNearest(n, d);
    if r < s {
      OrderedNeighbours(n, d, r, s);
    } else if s < r {
      OrderedNeighbours(n, d, s, r);
    }
  }

  /** Two rounding candidates r < s of n/d can only be the two neighbours of a tie, one of them odd. */
  lemma OrderedNeighbours(n: nat, d: nat, r: nat, s: nat)
    requires d > 0 && r < s
    requires Nearest(n, d, r) && Nearest(n, d, s)
    ensures Tie(n, d, r) && Tie(n, d, s)
    ensures r % 2 != 0 || s % 2 != 0
  {
    MulGrows(r, s, d);
    assert s * d == r * d + d;
    if s > r + 1 {
      MulGrows(r + 1, s, d);
    }
    assert s == r + 1;
  }

  /** Rounding a quotient that is at most k gives at most k. */
  lemma RoundAtMost(n: nat, d: nat, k: nat)
    requires d > 0 && n <= k * d
    ensures RoundHalfEven(n, d) <= k
  {
    var r := RoundHalfEven(n, d);
    RoundNearest(n, d);
    if r > k {
      MulGrows(k, r, d);
    }
  }

  /** The percentage of correct answers: `round(correct / total * 100)`, or 0 when nothing was graded. */
  function Percentage(correct: nat, total: nat): (p: nat)
    ensures total == 0 ==> p == 0
    ensures correct <= total ==> p <= 100
    ensures p == 0 <==> total == 0 || 200 * correct <= total
    ensures 0 < total == correct ==> p == 100
  {
    if total > 0 then
      var p := RoundHalfEven(100 * correct, total);
      RoundBounds(correct, total);
      p
    else 0
  }

  /** The bounds `Percentage` promises, for a positive total. */
  lemma RoundBounds(correct: nat, total: nat)
    requires total > 0
    ensures correct <= total ==> RoundHalfEven(100 * correct, total) <= 100
    ensures RoundHalfEven(100 * correct, total) == 0 <==> 200 * correct <= total
    ensures correct == total ==> RoundHalfEven(100 * correct, total) == 100
  {
    var p := RoundHalfEven(100 * correct, total);
    if correct <= total {
      RoundAtMost(100 * correct, total, 100);
    }
    if 200 * correct <= total {
      RoundUnique(100 * correct, total, 0);
    }
    if p == 0 {
      assert 200 * correct <= total;
    }
    if correct == total {
      assert 100 * correct == 100 * total;
      RoundUnique(100 * correct, total, 100);
    }
  }

  /**
   * A score of 100 does not mean every graded answer was right: 199 correct
   * out of 200 is 99.5%, which rounds to the even neighbour 100.
   */
  lemma PerfectScoreWithOneMistake()
    ensures Percentage(199, 200) == 100
  {
    RoundUnique(100 * 199, 200, 100);
  }

  /** `round(AVG(final_score))`, or 0 when there are no attempts. */
  function Average(sum: nat, count: nat): nat {
    if count == 0 then 0 else RoundHalfEven(sum, count)
  }

  /** An average of scores of at most 100 is at most 100. */
  lemma AverageAtMost100(sum: nat, count: nat)
    requires sum <= 100 * count
    ensures Average(sum, count) <= 100
    ensures count == 0 ==> Average(sum, count) == 0
  {
    if count > 0 {
      RoundAtMost(sum, count, 100);
    }
  }
}
