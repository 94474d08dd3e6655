/**
 Scoring: the same-colour chain bonus of `calculatePoints` and the high-score
 query of `getHighScore`.
 */
module Scoring {
  import opened Options
  import opened Entities

  /** Swift's `Int(x)` on a `Double`: truncation toward zero. */
  function Truncate(x: real): (n: int)
    ensures x >= 0.0 ==> n as real <= x < n as real + 1.0
    ensures x < 0.0 ==> n as real - 1.0 < x <= n as real
  {
    if x >= 0.0 then x.Floor else -((-x).Floor)
  }

  /**
   Points for continuing a chain whose last award was `last`: one and a half
   times it, truncated toward zero. `ChainPointsExact`, `ChainPointsOdd` and
   `ChainPointsGrow` characterise it.
   */
  function ChainPoints(last: int): int {
    Truncate(last as real * 1.5)
  }

  /**
   For a non-negative last award the chain bonus is exact integer arithmetic:
   half of the last award, rounded down, is added to it.
   */
  lemma ChainPointsExact(last: int)
    requires last >= 0
    ensures ChainPoints(last) == (3 * last) / 2 == last + last / 2
  {
    var q := (3 * last) / 2;
    var x := last as real * 1.5;
    assert 3 * last == 2 * q || 3 * last == 2 * q + 1;
    assert x == (3 * last) as real / 2.0;
    assert q as real <= x < q as real + 1.0;
    assert ChainPoints(last) == x.Floor;
  }

  /** Truncation toward zero makes the bonus odd-symmetric: a negative base mirrors a positive one. */
  lemma ChainPointsOdd(last: int)
    ensures ChainPoints(-last) == -ChainPoints(last)
  {
    assert (-last) as real * 1.5 == -(last as real * 1.5);
  }

  /** A chain bonus never falls below its base and grows once the base reaches 2. */
  lemma ChainPointsGrow(last: int)
    requires last >= 1
    ensures last <= ChainPoints(last)
    ensures last >= 2 ==> last < ChainPoints(last)
  {
    ChainPointsExact(last);
  }

  /**
   `calculatePoints`: the award for popping a bubble of `colour` worth `point`
   base points, given the remembered last colour and last award. A chain
   continues only when both are remembered and the colours match.
   */
  function Award(colour: Colour, point: int, lastColour: Option<Colour>, lastScore: Option<int>): (p: int)
    ensures lastScore.Some? && lastColour == Some(colour) && lastScore.value >= 0 ==>
              p == lastScore.value + lastScore.value / 2
    ensures !(lastScore.Some? && lastColour == Some(colour)) ==> p == point
    ensures point >= 1 && (lastScore.Some? ==> lastScore.value >= 1) ==> p >= 1
  {
    if lastScore.Some? && lastColour == Some(colour) then
      ChainPointsNonNegative(lastScore.value);
      ChainPoints(lastScore.value)
    else point
  }

  /** `ChainPointsExact` for any sign: a claim only about non-negative bases. */
  lemma ChainPointsNonNegative(last: int)
    ensures last >= 0 ==> ChainPoints(last) == last + last / 2
  {
    if last >= 0 {
      ChainPointsExact(last);
    }
  }

  /** The award of the `k`-th consecutive same-colour pop after one worth `base`. */
  function ChainAward(base: int, k: nat): int {
    if k == 0 then base else ChainPoints(ChainAward(base, k - 1))
  }

  /**
   Successive truncation: each step of a chain rounds the previous integer
   award, so a chain from 10 goes 10, 15, 22, 33, 49.
   */
  lemma ChainFromTen()
    ensures ChainAward(10, 1) == 15
    ensures ChainAward(10, 2) == 22
    ensures ChainAward(10, 3) == 33
    ensures ChainAward(10, 4) == 49
  {
    ChainPointsExact(10);
    ChainPointsExact(15);
    ChainPointsExact(22);
    ChainPointsExact(33);
  }

  /** A chain that starts from a positive base never shrinks. */
  lemma {:induction false} ChainAwardMonotone(base: int, k: nat)
    requires base >= 1
    ensures ChainAward(base, k) >= base
    ensures ChainAward(base, k + 1) >= ChainAward(base, k)
  {
    if k > 0 {
      ChainAwardMonotone(base, k - 1);
    }
    ChainPointsGrow(ChainAward(base, k));
  }

  /**
   `getHighScore`: the first score after sorting the records by descending
   score, or 0 when there are none, i.e. the greatest recorded score.
   */
  function HighScore(records: seq<PlayerScore>): (r: int)
    ensures |records| == 0 ==> r == 0
    ensures |records| > 0 ==> exists i :: 0 <= i < |records| && records[i].score == r
    ensures forall i :: 0 <= i < |records| ==> records[i].score <= r
  {
    if |records| == 0 then 0
    else if |records| == 1 then records[0].score
    else
      var rest := HighScore(records[1..]);
      if records[0].score >= rest then records[0].score else rest
  }

  /** The high score over three saved sessions scoring 50, 90 and 30 is 90. */
  lemma HighScoreExample()
    ensures HighScore([]) == 0
    ensures HighScore([PlayerScore("a", 50), PlayerScore("b", 90), PlayerScore("c", 30)]) == 90
  {
  }
}
