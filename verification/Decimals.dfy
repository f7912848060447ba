/** Decimal numbers as printf prints them and as digits in a format or a header spell them. */
module Decimals {

  predicate AllDigits(s: string) {
    forall k :: 0 <= k < |s| ==> '0' <= s[k] <= '9'
  }

  function Digit(d: nat): char
    requires d < 10
  {
    d as char + '0'
  }

  /** %d and %zd on a number that is not negative. */
  function Decimal(n: nat): (s: string)
    ensures s != "" && AllDigits(s)
  {
    if n < 10 then [Digit(n)] else Decimal(n / 10) + [Digit(n % 10)]
  }

  /** The number that a text of digits stands for. */
  function ParseDecimal(s: string): nat
    requires AllDigits(s)
  {
    if s == "" then 0
    else 10 * ParseDecimal(s[..|s| - 1]) + (s[|s| - 1] as int - '0' as int)
  }

  /** Printing a number and reading it gives the number back, and no number is printed with a leading zero. */
  lemma {:induction false} DecimalRoundTrip(n: nat)
    ensures ParseDecimal(Decimal(n)) == n
    ensures Decimal(n)[0] == '0' ==> n == 0 && |Decimal(n)| == 1
  {
    if n >= 10 {
      DecimalRoundTrip(n / 10);
      assert Decimal(n)[..|Decimal(n)| - 1] == Decimal(n / 10);
    }
  }

  /** What the digits weigh, from the first one on. */
  function Weight(s: string): nat
    requires AllDigits(s)
  {
    if s == "" then 0 else (s[0] as int - '0' as int) * Power10(|s| - 1) + Weight(s[1..])
  }

  function Power10(n: nat): nat {
    if n == 0 then 1 else 10 * Power10(n - 1)
  }

  /** Reading is place value: each digit counts for its power of ten. */
  lemma {:induction false} ReadingIsWeight(s: string)
    requires AllDigits(s)
    ensures ParseDecimal(s) == Weight(s)
    decreases |s|
  {
    if s != "" {
      var n := |s| - 1;
      ReadingIsWeight(s[..n]);
      WeightOfLast(s[..n], s[n]);
      assert s[..n] + [s[n]] == s;
    }
  }

  lemma {:induction false} WeightOfLast(s: string, c: char)
    requires AllDigits(s) && '0' <= c <= '9'
    ensures Weight(s + [c]) == 10 * Weight(s) + (c as int - '0' as int)
    decreases |s|
  {
    if s != "" {
      WeightOfLast(s[1..], c);
      assert (s + [c])[1..] == s[1..] + [c];
      var d, p := s[0] as int - '0' as int, Power10(|s| - 1);
      assert Power10(|s|) == 10 * p;
      assert d * (10 * p) == 10 * (d * p);
    } else {
      assert [c][1..] == "";
    }
  }
}
