/**
 * The two unit conversions of the report: a duration in seconds shown as
 * minutes and seconds, and a score shown as a rounded percentage.
 */
module Report {
  import opened Decimal

  /** PHP's `%` on integers: the remainder takes the sign of the dividend. */
  function PhpMod(a: int, b: int): (r: int)
    requires b > 0
    ensures a >= 0 ==> 0 <= r < b && (a / b) * b + r == a
    ensures a < 0 ==> -b < r <= 0 && r == a + ((-a) / b) * b
  {
    if a >= 0 then a % b else -((-a) % b)
  }

  /**
   * `r` reads as `MM:SS` for `d` seconds: two or more minute digits, with no
   * leading zero beyond the two-digit width, a colon, two second digits
   * below 60, and minutes times 60 plus seconds is `d`.
   */
  predicate ReadsAsDuration(r: string, d: nat) {
    var k := |r| - 3;
    && k >= 2
    && r[k] == ':'
    && (k > 2 ==> r[0] != '0')
    && AllDigits(r[..k])
    && AllDigits(r[k + 1..])
    && |r[k + 1..]| == 2
    && Value(r[k + 1..]) < 60
    && Value(r[..k]) * 60 + Value(r[k + 1..]) == d
  }

  /**
   * `sprintf("%02d:%02d", floor($d / 60), $d % 60)`. Dafny's `/` by a
   * positive divisor already floors.
   */
  function FormatDuration(d: int): (r: string)
    ensures d >= 0 ==> ReadsAsDuration(r, d)
  {
    var minutes := ZeroPad2(d / 60);
    var seconds := ZeroPad2(PhpMod(d, 60));
    var r := minutes + ":" + seconds;
    assert d >= 0 ==> r[..|minutes|] == minutes && r[|minutes| + 1..] == seconds && r[0] == minutes[0];
    r
  }

  /** Only one text reads as a given duration, so `FormatDuration` is pinned down exactly. */
  lemma DurationTextUnique(r1: string, r2: string, d: nat)
    requires ReadsAsDuration(r1, d) && ReadsAsDuration(r2, d)
    ensures r1 == r2
  {
    var k1, k2 := |r1| - 3, |r2| - 3;
    var m1, m2 := r1[..k1], r2[..k2];
    var s1, s2 := r1[k1 + 1..], r2[k2 + 1..];
    SplitMinutes(Value(m1), Value(s1), Value(m2), Value(s2));
    DigitsDetermined(s1, s2);
    assert m1[0] == r1[0] && m2[0] == r2[0];
    MinimalDigitsDetermined(m1, m2, 2);
    assert r1 == m1 + [':'] + s1 && r2 == m2 + [':'] + s2;
  }

  /** Minutes and seconds below 60 are determined by the total they make. */
  lemma SplitMinutes(m1: nat, s1: nat, m2: nat, s2: nat)
    requires s1 < 60 && s2 < 60 && m1 * 60 + s1 == m2 * 60 + s2
    ensures m1 == m2 && s1 == s2
  {
  }

  lemma FormatDurationExample()
    ensures FormatDuration(95) == "01:35"
    ensures FormatDuration(0) == "00:00"
    ensures FormatDuration(6000) == "100:00"
  {
    assert NatToString(35) == "35";
    assert NatToString(100) == "100";
  }

  /**
   * `p` is `100 * score / total` rounded to the nearest integer, halves
   * going away from zero (PHP's `round`): the doubled error
   * `2 * (p * total - 100 * score)` lies in `(-total, total]` for a
   * non-negative numerator and in `[-total, total)` for a negative one.
   */
  predicate IsRoundedPercent(score: int, total: int, p: int)
    requires total > 0
  {
    var e := 2 * (p * total - 100 * score);
    if 100 * score >= 0 then -total < e <= total else -total <= e < total
  }

  /**
   * `$total > 0 ? round(($score / $total) * 100) : 0`, in exact arithmetic.
   */
  function Percentage(score: int, total: int): (p: int)
    ensures total <= 0 ==> p == 0
    ensures total > 0 ==> IsRoundedPercent(score, total, p)
  {
    if total <= 0 then 0
    else
      var n := 100 * score;
      if n >= 0 then
        var q := (2 * n + total) / (2 * total);
        DivBounds(2 * n + total, 2 * total);
        q
      else
        var q := (total - 2 * n) / (2 * total);
        DivBounds(total - 2 * n, 2 * total);
        -q
  }

  /** Euclidean division by a positive divisor. */
  lemma DivBounds(a: int, b: int)
    requires b > 0
    ensures (a / b) * b <= a < (a / b) * b + b
  {
  }

  /** The rounding rule admits exactly one value, so it fully specifies `Percentage`. */
  lemma RoundedPercentUnique(score: int, total: int, p: int, q: int)
    requires total > 0
    requires IsRoundedPercent(score, total, p) && IsRoundedPercent(score, total, q)
    ensures p == q
  {
    var d := p - q;
    assert 2 * (p * total - 100 * score) - 2 * (q * total - 100 * score) == 2 * d * total;
    if d >= 1 {
      assert d * total >= total by { MulMonotone(d, total); }
    } else if d <= -1 {
      assert (-d) * total >= total by { MulMonotone(-d, total); }
    }
  }

  lemma MulMonotone(a: int, b: int)
    requires a >= 1 && b > 0
    ensures a * b >= b
  {
  }

  /** A score between 0 and the total gives a percentage between 0 and 100. */
  lemma PercentageBounded(score: int, total: int)
    requires 0 <= score <= total
    ensures 0 <= Percentage(score, total) <= 100
  {
    if total > 0 {
      var p := Percentage(score, total);
      assert 2 * p * total <= 200 * score + total;
      assert 200 * score <= 200 * total;
      assert 2 * p * total < 202 * total;
      if p > 100 {
        assert p * total >= 101 * total by { MulAtLeast(p, 101, total); }
      }
    }
  }

  lemma MulAtLeast(a: int, c: int, b: int)
    requires a >= c && b > 0
    ensures a * b >= c * b
  {
  }

  /** The handler's worked figures; a score above the total goes beyond 100. */
  lemma PercentageExamples()
    ensures Percentage(10, 12) == 83
    ensures Percentage(13, 12) == 108
    ensures Percentage(1, 8) == 13
    ensures Percentage(-1, 8) == -13
    ensures Percentage(5, 0) == 0
    ensures Percentage(5, -3) == 0
  {
  }
}
