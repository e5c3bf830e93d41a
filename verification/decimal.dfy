/**
 * Decimal rendering of integers, as PHP does when it interpolates an `int`
 * into a string and as `sprintf("%02d", n)` does, together with the inverse
 * reading of a digit string back into its value.
 */
module Decimal {

  predicate IsDigit(c: char) {
    '0' <= c <= '9'
  }

  predicate AllDigits(s: string) {
    forall i :: 0 <= i < |s| ==> IsDigit(s[i])
  }

  function DigitValue(c: char): (d: nat)
    requires IsDigit(c)
    ensures d < 10
  {
    (c as int) - ('0' as int)
  }

  function DigitChar(d: nat): (c: char)
    requires d < 10
    ensures IsDigit(c) && DigitValue(c) == d
  {
    (('0' as int) + d) as char
  }

  /** The number a digit string denotes, most significant digit first. */
  function Value(s: string): nat
    requires AllDigits(s)
  {
    if |s| == 0 then 0 else Value(s[..|s| - 1]) * 10 + DigitValue(s[|s| - 1])
  }

  /** Shortest decimal form of `n`: no leading zero except for `n == 0` itself. */
  function NatToString(n: nat): (s: string)
    ensures 1 <= |s| && AllDigits(s)
    ensures |s| > 1 ==> s[0] != '0'
    ensures n < 10 <==> |s| == 1
  {
    if n < 10 then [DigitChar(n)] else NatToString(n / 10) + [DigitChar(n % 10)]
  }

  /** Reading the rendered digits back gives the number rendered. */
  lemma {:induction false} NatToStringValue(n: nat)
    ensures Value(NatToString(n)) == n
  {
    if n >= 10 {
      var s := NatToString(n);
      var prefix := NatToString(n / 10);
      assert s[..|s| - 1] == prefix;
      NatToStringValue(n / 10);
    }
  }

  /** PHP's string form of an integer: a minus sign, then the magnitude. */
  function IntToString(i: int): (s: string)
    ensures 1 <= |s|
    ensures i >= 0 ==> s == NatToString(i)
    ensures i < 0 ==> s[0] == '-' && s[1..] == NatToString(-i)
  {
    if i < 0 then "-" + NatToString(-i) else NatToString(i)
  }

  /** Reads an optionally signed decimal string. */
  function IntValue(s: string): int
    requires 1 <= |s|
    requires s[0] == '-' ==> AllDigits(s[1..])
    requires s[0] != '-' ==> AllDigits(s)
  {
    if s[0] == '-' then -(Value(s[1..]) as int) else Value(s)
  }

  lemma IntToStringValue(i: int)
    ensures var s := IntToString(i);
      (s[0] == '-' ==> AllDigits(s[1..])) && (s[0] != '-' ==> AllDigits(s)) && IntValue(s) == i
  {
    var s := IntToString(i);
    if i < 0 {
      NatToStringValue(-i);
      assert s[0] == '-' && s[1..] == NatToString(-i);
      assert IntValue(s) == -(Value(NatToString(-i)) as int);
    } else {
      NatToStringValue(i);
      assert s == NatToString(i);
    }
  }

  /**
   * `sprintf("%02d", n)`: at least two characters, zero-padded on the left.
   * A negative number already has two characters once its sign is written,
   * so it gets no padding.
   */
  function ZeroPad2(n: int): (s: string)
    ensures 2 <= |s|
    ensures 0 <= n < 100 ==> |s| == 2 && AllDigits(s) && Value(s) == n
    ensures n >= 0 ==> AllDigits(s) && Value(s) == n
    ensures n >= 0 && |s| > 2 ==> s[0] != '0'
    ensures n < 0 ==> s[0] == '-' && AllDigits(s[1..]) && Value(s[1..]) == -n
    ensures n < 0 && |s| > 2 ==> s[1] != '0'
  {
    if n < 0 then
      NatToStringValue(-n);
      assert ("-" + NatToString(-n))[1..] == NatToString(-n);
      "-" + NatToString(-n)
    else if n < 10 then
      NatToStringValue(n);
      "0" + NatToString(n)
    else
      NatToStringValue(n);
      NatToString(n)
  }

  function Pow10(n: nat): (p: nat)
    ensures p >= 1
  {
    if n == 0 then 1 else 10 * Pow10(n - 1)
  }

  lemma {:induction false} Pow10Monotone(i: nat, j: nat)
    requires i <= j
    ensures Pow10(i) <= Pow10(j)
    decreases j
  {
    if i < j {
      Pow10Monotone(i, j - 1);
    }
  }

  /**
   * An `n`-digit string denotes a number below `10^n`, and at least
   * `10^(n-1)` when it does not start with `0`.
   */
  lemma {:induction false} ValueRange(s: string)
    requires AllDigits(s)
    ensures Value(s) < Pow10(|s|)
    ensures |s| >= 1 && s[0] != '0' ==> Value(s) >= Pow10(|s| - 1)
    decreases |s|
  {
    if |s| > 0 {
      var p := s[..|s| - 1];
      ValueRange(p);
      if |s| > 1 {
        assert p[0] == s[0];
      } else {
        assert s[0] != '0' ==> DigitValue(s[0]) >= 1;
      }
    }
  }

  /** Equally long digit strings with the same value are the same string. */
  lemma {:induction false} DigitsDetermined(a: string, b: string)
    requires AllDigits(a) && AllDigits(b) && |a| == |b| && Value(a) == Value(b)
    ensures a == b
    decreases |a|
  {
    if |a| > 0 {
      var n := |a|;
      var da := DigitValue(a[n - 1]);
      var db := DigitValue(b[n - 1]);
      LastDigit(Value(a[..n - 1]), da, Value(b[..n - 1]), db);
      DigitsDetermined(a[..n - 1], b[..n - 1]);
      assert a == a[..n - 1] + [a[n - 1]] && b == b[..n - 1] + [b[n - 1]];
    }
  }

  lemma LastDigit(x: nat, dx: nat, y: nat, dy: nat)
    requires dx < 10 && dy < 10 && x * 10 + dx == y * 10 + dy
    ensures x == y && dx == dy
  {
  }

  /**
   * Decimal text without superfluous leading zeros is determined by its
   * value: two such digit strings, each at least `w` long and longer than
   * `w` only when they do not start with `0`, are equal when their values are.
   */
  lemma MinimalDigitsDetermined(a: string, b: string, w: nat)
    requires AllDigits(a) && AllDigits(b) && Value(a) == Value(b)
    requires |a| >= w && |b| >= w && w >= 1
    requires |a| > w ==> a[0] != '0'
    requires |b| > w ==> b[0] != '0'
    ensures a == b
  {
    ValueRange(a);
    ValueRange(b);
    if |a| < |b| {
      Pow10Monotone(|a|, |b| - 1);
    } else if |b| < |a| {
      Pow10Monotone(|b|, |a| - 1);
    }
    DigitsDetermined(a, b);
  }
}
