/** Decimal text of arbitrary-precision integers: the parse that `big.FromString`
    performs on a base-fee hint (an optional sign followed by one or more decimal
    digits, base 10) and the canonical rendering it inverts. */
module Decimal {

  import opened Wrappers

  predicate IsDigit(c: char) {
    '0' <= c <= '9'
  }

  predicate AllDigits(s: string) {
    forall i :: 0 <= i < |s| ==> IsDigit(s[i])
  }

  /** The input shape the parser accepts: an optional `+` or `-`, then at least one digit. */
  predicate IsIntegerLiteral(s: string) {
    if |s| > 0 && (s[0] == '-' || s[0] == '+') then |s| > 1 && AllDigits(s[1..])
    else |s| > 0 && AllDigits(s)
  }

  function DigitValue(c: char): (d: nat)
    requires IsDigit(c)
    ensures d < 10
  {
    c as int - '0' as int
  }

  function DigitChar(d: nat): (c: char)
    requires d < 10
    ensures IsDigit(c) && DigitValue(c) == d
  {
    ('0' as int + d) as char
  }

  /** The value of a non-empty string of digits, most significant digit first. */
  function ParseDigits(s: string): (r: Option<nat>)
    requires |s| > 0
    ensures r.Some? <==> AllDigits(s)
    decreases |s|
  {
    var last := s[|s| - 1];
    if !IsDigit(last) then None
    else if |s| == 1 then Some(DigitValue(last))
    else
      match ParseDigits(s[..|s| - 1])
      case None => None
      case Some(v) =>
        assert forall i :: 0 <= i < |s| - 1 ==> s[i] == s[..|s| - 1][i];
        Some(10 * v + DigitValue(last))
  }

  /** Base-10 parse of a big integer: fails on empty text, a lone sign, or any non-digit. */
  function ParseInt(s: string): (r: Option<int>)
    ensures r.Some? <==> IsIntegerLiteral(s)
  {
    if |s| > 0 && s[0] == '-' then
      if |s| == 1 then None
      else match ParseDigits(s[1..])
        case None => None
        case Some(v) => Some(0 - v as int)
    else if |s| > 0 && s[0] == '+' then
      if |s| == 1 then None else match ParseDigits(s[1..])
        case None => None
        case Some(v) => Some(v)
    else if |s| == 0 then None
    else match ParseDigits(s)
      case None => None
      case Some(v) => Some(v)
  }

  /** Canonical decimal rendering of a natural number, without leading zeros. */
  function FormatNat(n: nat): (s: string)
    ensures |s| > 0 && AllDigits(s)
    ensures |s| > 1 ==> s[0] != '0'
  {
    if n < 10 then [DigitChar(n)]
    else FormatNat(n / 10) + [DigitChar(n % 10)]
  }

  function FormatInt(v: int): string {
    if v < 0 then "-" + FormatNat(-v) else FormatNat(v)
  }

  lemma {:induction false} ParseFormatNat(n: nat)
    ensures ParseDigits(FormatNat(n)) == Some(n)
  {
    if n >= 10 {
      var s := FormatNat(n);
      ParseFormatNat(n / 10);
      assert s[..|s| - 1] == FormatNat(n / 10);
      assert s[|s| - 1] == DigitChar(n % 10);
    }
  }

  /** Every big integer survives rendering and parsing unchanged. */
  lemma ParseFormatInt(v: int)
    ensures ParseInt(FormatInt(v)) == Some(v)
  {
    if v < 0 {
      ParseFormatNat(-v);
      assert FormatInt(v)[1..] == FormatNat(-v);
    } else {
      ParseFormatNat(v);
    }
  }
}
