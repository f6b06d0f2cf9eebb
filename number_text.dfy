/**
 * `Number.prototype.toString()` for integer values: optional `-`, then the
 * decimal digits without leading zeros. This is how the builder writes each
 * day id.
 */
module NumberText {
  import opened Options

  predicate IsDigit(c: char) {
    '0' <= c <= '9'
  }

  function DigitChar(k: int): (c: char)
    requires 0 <= k < 10
    ensures IsDigit(c) && c as int - '0' as int == k
  {
    "0123456789"[k]
  }

  function NatToText(n: nat): (s: string)
    ensures s != []
    ensures forall i :: 0 <= i < |s| ==> IsDigit(s[i])
    ensures s[0] == '0' ==> n == 0 && s == "0"
  {
    if n < 10 then [DigitChar(n)] else NatToText(n / 10) + [DigitChar(n % 10)]
  }

  function IntToText(n: int): (s: string)
    ensures s != []
    ensures s[0] == '-' <==> n < 0
    ensures forall i :: 0 < i < |s| ==> IsDigit(s[i])
    ensures var digits := if n < 0 then s[1..] else s;
      digits != [] && forall i :: 0 <= i < |digits| ==> IsDigit(digits[i])
  {
    if n < 0 then "-" + NatToText(-n) else NatToText(n)
  }

  /** Reads a run of decimal digits, most significant first. */
  function DigitsValue(s: string): nat
    requires forall i :: 0 <= i < |s| ==> IsDigit(s[i])
  {
    if s == [] then 0 else 10 * DigitsValue(s[..|s| - 1]) + DigitValue(s[|s| - 1])
  }

  function DigitValue(c: char): (k: nat)
    requires IsDigit(c)
    ensures k < 10
  {
    c as int - '0' as int
  }

  /** The inverse of `IntToText`: an optional `-` and at least one digit, no leading zeros. */
  function ParseInt(s: string): Option<int> {
    if s != [] && s[0] == '-' then
      var d := s[1..];
      if d != [] && d[0] != '0' && (forall i :: 0 <= i < |d| ==> IsDigit(d[i])) then Some(0 - DigitsValue(d)) else None
    else if s != [] && (s[0] != '0' || |s| == 1) && (forall i :: 0 <= i < |s| ==> IsDigit(s[i])) then Some(DigitsValue(s))
    else None
  }

  lemma {:induction false} DigitsValueOfNat(n: nat)
    ensures DigitsValue(NatToText(n)) == n
  {
    if n >= 10 {
      var s := NatToText(n);
      assert s[..|s| - 1] == NatToText(n / 10);
      DigitsValueOfNat(n / 10);
    }
  }

  /** The decimal text of an integer reads back as that integer. */
  lemma ParseIntToText(n: int)
    ensures ParseInt(IntToText(n)) == Some(n)
  {
    if n < 0 {
      DigitsValueOfNat(-n);
      assert IntToText(n)[1..] == NatToText(-n);
    } else {
      DigitsValueOfNat(n);
    }
  }

  /** Different integers have different texts. */
  lemma IntToTextInjective(a: int, b: int)
    requires IntToText(a) == IntToText(b)
    ensures a == b
  {
    ParseIntToText(a);
    ParseIntToText(b);
  }
}
