/**
 * `Math.round((value / total) * 100)` for counts, in integer arithmetic.
 * For value >= 0 and total > 0, Math.round rounds halves up, so the result
 * is floor((200 * value + total) / (2 * total)).
 */
module Percent {

  /**
   * p is 100 * v / t rounded to the nearest whole number, halves up:
   * p - 1/2 <= 100 * v / t < p + 1/2, multiplied through by 2 * t.
   */
  predicate IsRoundedPercent(p: int, v: int, t: int) {
    2 * t * p <= 200 * v + t < 2 * t * (p + 1)
  }

  /** The whole percentage nearest to 100 * v / t, halves rounded up. */
  function RoundPercent(v: nat, t: nat): (p: nat)
    requires t > 0
    ensures IsRoundedPercent(p, v, t)
    ensures v <= t ==> p <= 100
  {
    var p := (200 * v + t) / (2 * t);
    assert 2 * t * p <= 200 * v + t < 2 * t * (p + 1) by {
      var rem := (200 * v + t) % (2 * t);
      assert (2 * t) * p + rem == 200 * v + t;
    }
    if v <= t then
      assert p <= 100 by {
        if p > 100 {
          assert 2 * t * p >= 2 * t * 101 by { MultiplyMonotone(2 * t, 101, p); }
        }
      }
      p
    else
      p
  }

  lemma MultiplyMonotone(a: nat, x: int, y: int)
    requires x <= y
    ensures a * x <= a * y
  {
  }

  /**
   * getPercentage of the statistics dashboard: 0 when there is nothing to
   * divide by, the rounded percentage otherwise.
   */
  function GetPercentage(value: nat, total: nat): (p: nat)
    ensures total == 0 ==> p == 0
    ensures total > 0 ==> IsRoundedPercent(p, value, total)
    ensures value <= total ==> p <= 100
  {
    if total > 0 then RoundPercent(value, total) else 0
  }

  /** All of a total is 100 percent, none of it 0 percent. */
  lemma GetPercentageEnds(total: nat)
    requires total > 0
    ensures GetPercentage(total, total) == 100
    ensures GetPercentage(0, total) == 0
  {
    var p := GetPercentage(total, total);
    if p < 100 {
      MultiplyMonotone(2 * total, p + 1, 100);
    }
  }
}
