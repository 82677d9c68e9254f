/** Python numeric built-ins used by the risk scorers and the OCR report text. */
module PyNum {

  /** `max(0, min(100, n))` */
  function Clamp100(n: int): (r: int)
    ensures 0 <= r <= 100
    ensures 0 <= n <= 100 ==> r == n
    ensures n < 0 ==> r == 0
    ensures n > 100 ==> r == 100
  {
    if n < 0 then 0 else if n > 100 then 100 else n
  }

  lemma Clamp100Monotone(m: int, n: int)
    requires m <= n
    ensures Clamp100(m) <= Clamp100(n)
  {
  }

  /** Python's `round(x)` on a float: the nearest integer, ties going to the even neighbour. */
  function RoundHalfEven(x: real): (n: int)
    ensures n as real - 0.5 <= x <= n as real + 0.5
    ensures (x == n as real - 0.5 || x == n as real + 0.5) ==> n % 2 == 0
  {
    var f := x.Floor;
    var d := x - f as real;
    if d < 0.5 then f
    else if d > 0.5 then f + 1
    else if f % 2 == 0 then f
    else f + 1
  }

  /** Rounding preserves order. */
  lemma RoundMonotone(x: real, y: real)
    requires x <= y
    ensures RoundHalfEven(x) <= RoundHalfEven(y)
  {
  }

  /** Decimal digits of a natural number, most significant first, as `str(n)` writes them. */
  function NatToString(n: nat): (s: string)
    ensures |s| >= 1
    ensures forall i :: 0 <= i < |s| ==> '0' <= s[i] <= '9'
  {
    if n < 10 then [Digit(n)] else NatToString(n / 10) + [Digit(n % 10)]
  }

  function Digit(d: nat): (c: char)
    requires d < 10
    ensures '0' <= c <= '9'
    ensures c as int - '0' as int == d
  {
    ('0' as int + d) as char
  }

  /** The number a string of decimal digits denotes. */
  function DigitsValue(s: string): nat
    requires forall i :: 0 <= i < |s| ==> '0' <= s[i] <= '9'
  {
    if s == [] then 0 else DigitsValue(s[..|s| - 1]) * 10 + (s[|s| - 1] as int - '0' as int)
  }

  /** Reading back the digits that `NatToString` writes gives the number. */
  lemma {:induction false} NatToStringValue(n: nat)
    ensures DigitsValue(NatToString(n)) == n
  {
    if n >= 10 {
      NatToStringValue(n / 10);
      var s := NatToString(n);
      assert s[..|s| - 1] == NatToString(n / 10);
    }
  }

  /** Python's `format(x, ".2f")`: the value rounded to hundredths, with exactly two decimals. */
  function FormatFixed2(x: real): (s: string)
    ensures |s| >= 4 && s[|s| - 3] == '.'
    ensures '0' <= s[|s| - 2] <= '9' && '0' <= s[|s| - 1] <= '9'
  {
    if x < 0.0 then
      assert RoundHalfEven(-x * 100.0) >= 0;
      "-" + Cents(RoundHalfEven(-x * 100.0))
    else
      assert RoundHalfEven(x * 100.0) >= 0;
      Cents(RoundHalfEven(x * 100.0))
  }

  /**
    `u` reads as `n` hundredths: digits, a point and two digits, the units and the decimals
    together denoting `n`.
   */
  predicate ReadsAsCents(u: string, n: int) {
    && |u| >= 4 && u[|u| - 3] == '.'
    && (forall i :: 0 <= i < |u| && i != |u| - 3 ==> '0' <= u[i] <= '9')
    && DigitsValue(u[..|u| - 3]) * 100 + DigitsValue(u[|u| - 2..]) == n
  }

  /**
    The text `:.2f` writes starts with a minus sign exactly for a negative value, and the rest
    reads as the magnitude rounded to hundredths.
   */
  lemma FormatFixed2Value(x: real)
    ensures x >= 0.0 ==> FormatFixed2(x)[0] != '-' && ReadsAsCents(FormatFixed2(x), RoundHalfEven(x * 100.0))
    ensures x < 0.0 ==> FormatFixed2(x)[0] == '-' && ReadsAsCents(FormatFixed2(x)[1..], RoundHalfEven(-x * 100.0))
  {
    if x < 0.0 {
      var n := RoundHalfEven(-x * 100.0);
      assert n >= 0;
      CentsValue(n);
      assert FormatFixed2(x)[1..] == Cents(n);
    } else {
      var n := RoundHalfEven(x * 100.0);
      assert n >= 0;
      CentsValue(n);
    }
  }

  /** A count of hundredths written as units, a point and two decimals. */
  function Cents(n: nat): (s: string)
    ensures |s| >= 4 && s[|s| - 3] == '.'
    ensures forall i :: 0 <= i < |s| && i != |s| - 3 ==> '0' <= s[i] <= '9'
  {
    NatToString(n / 100) + ['.'] + TwoDigits(n % 100)
  }

  /** A number below 100 written with exactly two digits, a leading zero included. */
  function TwoDigits(d: nat): (t: string)
    requires d < 100
    ensures |t| == 2 && '0' <= t[0] <= '9' && '0' <= t[1] <= '9'
  {
    [Digit(d / 10), Digit(d % 10)]
  }

  /** The units and the two decimals of `Cents(n)` read back as the count. */
  lemma CentsValue(n: nat)
    ensures ReadsAsCents(Cents(n), n)
  {
    var s := Cents(n);
    var whole := NatToString(n / 100);
    NatToStringValue(n / 100);
    TwoDigitsValue(n % 100);
    assert s[..|s| - 3] == whole;
    assert s[|s| - 2..] == TwoDigits(n % 100);
  }

  /** Two digits written for a number below 100 read back as that number. */
  lemma TwoDigitsValue(d: nat)
    requires d < 100
    ensures DigitsValue(TwoDigits(d)) == d
  {
    var t := TwoDigits(d);
    assert t[..1] == [Digit(d / 10)] && t[..1][..0] == [];
    assert DigitsValue(t[..1]) == d / 10;
  }
}
