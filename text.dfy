/**
 * Python's `str()` of the values an f-string embeds in the reminder text:
 * an `int` in decimal (a leading '-' when negative, no leading zeros) and
 * `None` as the four letters "None".
 */
module Text {
  import opened Wrappers

  const NoneText: string := "None"

  predicate IsDigit(c: char)
  {
    '0' <= c <= '9'
  }

  predicate AllDigits(s: string)
  {
    forall i :: 0 <= i < |s| ==> IsDigit(s[i])
  }

  function DigitChar(d: nat): (c: char)
    requires d < 10
    ensures IsDigit(c) && c as int - '0' as int == d
  {
    (d + '0' as int) as char
  }

  /** `str(n)` for a non-negative int: at least one digit and no leading zero. */
  function NatToDecimal(n: nat): (s: string)
    ensures |s| >= 1 && AllDigits(s)
    ensures s[0] == '0' <==> n == 0
    ensures n == 0 ==> s == "0"
    decreases n
  {
    if n < 10 then [DigitChar(n)] else NatToDecimal(n / 10) + [DigitChar(n % 10)]
  }

  /** The value a string of decimal digits denotes. */
  function DecimalValue(s: string): nat
    requires AllDigits(s)
  {
    if s == [] then 0 else DecimalValue(s[..|s| - 1]) * 10 + (s[|s| - 1] as int - '0' as int)
  }

  /** Reading back what `str` wrote gives the number. */
  lemma {:induction false} DecimalRoundTrip(n: nat)
    ensures DecimalValue(NatToDecimal(n)) == n
    decreases n
  {
    var s := NatToDecimal(n);
    if n >= 10 {
      DecimalRoundTrip(n / 10);
      assert s[..|s| - 1] == NatToDecimal(n / 10);
    }
  }

  /** `str(n)` for any int. */
  function IntToDecimal(n: int): (s: string)
    ensures |s| >= 1
    ensures n < 0 <==> s[0] == '-'
    ensures n < 0 ==> AllDigits(s[1..]) && DecimalValue(s[1..]) == -n
    ensures n >= 0 ==> AllDigits(s) && DecimalValue(s) == n
    ensures n >= 0 ==> (s[0] == '0' <==> n == 0)
    ensures n == 0 ==> s == "0"
    ensures n < 0 ==> |s| >= 2 && s[1] != '0'
  {
    DecimalRoundTrip(if n < 0 then -n else n);
    if n < 0 then "-" + NatToDecimal(-n) else NatToDecimal(n)
  }

  /** `str(x)` where `x` is a nullable str. */
  function OptionalText(x: Option<string>): (s: string)
    ensures x.Some? ==> s == x.value
    ensures x.None? ==> s == NoneText
  {
    match x
    case Some(v) => v
    case None => NoneText
  }

  /** `str(x)` where `x` is a nullable int. */
  function OptionalIntText(x: Option<int>): (s: string)
    ensures x.None? ==> s == NoneText
    ensures x.Some? && x.value >= 0 ==> AllDigits(s) && DecimalValue(s) == x.value
    ensures x.Some? && x.value >= 0 ==> |s| >= 1 && (s[0] == '0' <==> x.value == 0)
    ensures x == Some(0) ==> s == "0"
    ensures x.Some? && x.value < 0 ==> |s| >= 2 && s[0] == '-' && s[1] != '0'
    ensures x.Some? && x.value < 0 ==> AllDigits(s[1..]) && DecimalValue(s[1..]) == -x.value
  {
    match x
    case Some(n) => IntToDecimal(n)
    case None => NoneText
  }
}
