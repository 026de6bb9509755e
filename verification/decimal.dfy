/**
 Python's `str()` on a non-negative integer: its decimal digits, most
 significant first, with no leading zero (so `0` is the one-digit "0").
 The catalog's record ids are such strings, one per 1-based position.
 `Value` reads a digit string back; it is the inverse that shows distinct
 positions have distinct ids.
 */
module Decimal {

  predicate IsDigit(c: char) {
    '0' <= c <= '9'
  }

  predicate IsDigits(s: string) {
    forall i :: 0 <= i < |s| ==> IsDigit(s[i])
  }

  function DigitChar(d: nat): (c: char)
    requires d < 10
    ensures IsDigit(c)
  {
    (48 + d) as char
  }

  function DigitValue(c: char): (d: nat)
    requires IsDigit(c)
    ensures d < 10
  {
    (c as int) - 48
  }

  /** `str(n)` for a non-negative integer `n`. */
  function Str(n: nat): (s: string)
    ensures |s| >= 1
    ensures IsDigits(s)
    ensures s[0] == '0' ==> n == 0
    decreases n
  {
    if n < 10 then [DigitChar(n)]
    else Str(n / 10) + [DigitChar(n % 10)]
  }

  /** `str(n)` for any integer `n`: a minus sign before the digits of `-n`
      when `n` is negative. */
  function IntStr(n: int): (s: string)
    ensures n >= 0 ==> IsDigits(s)
    ensures n < 0 ==> |s| >= 2 && s[0] == '-' && IsDigits(s[1..])
  {
    if n >= 0 then Str(n) else "-" + Str(-n)
  }

  /** The number a digit string denotes (leading zeros allowed). */
  function Value(s: string): (v: nat)
    requires IsDigits(s)
    decreases |s|
  {
    if |s| == 0 then 0
    else Value(s[..|s| - 1]) * 10 + DigitValue(s[|s| - 1])
  }

  /** Reading `str(n)` back gives `n`. */
  lemma {:induction false} ValueOfStr(n: nat)
    ensures Value(Str(n)) == n
    decreases n
  {
    var s := Str(n);
    if n < 10 {
      assert s[..|s| - 1] == [];
    } else {
      assert s[..|s| - 1] == Str(n / 10);
      ValueOfStr(n / 10);
    }
  }

  /** Distinct numbers have distinct decimal strings. */
  lemma StrInjective(a: nat, b: nat)
    ensures Str(a) == Str(b) <==> a == b
  {
    if Str(a) == Str(b) {
      ValueOfStr(a);
      ValueOfStr(b);
    }
  }
}
