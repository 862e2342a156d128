/** Numbers as decimal text, and back. */
module Decimals {
  predicate Digit(c: char) { '0' <= c <= '9' }

  function Decimal(n: nat): (s: string)
    ensures s != "" && forall i | 0 <= i < |s| :: Digit(s[i])
  {
    var d := ['0' + (n % 10) as char];
    if n < 10 then d else Decimal(n / 10) + d
  }

  function DigitValue(c: char): nat {
    if Digit(c) then c as int - '0' as int else 0
  }

  function ReadDecimal(s: string): nat
    decreases |s|
  {
    if s == "" then 0 else ReadDecimal(s[..|s| - 1]) * 10 + DigitValue(s[|s| - 1])
  }

  lemma {:induction false} ReadDecimalOf(n: nat)
    ensures ReadDecimal(Decimal(n)) == n
  {
    var s := Decimal(n);
    if n >= 10 {
      ReadDecimalOf(n / 10);
      assert s[..|s| - 1] == Decimal(n / 10);
    } else {
      assert s[..|s| - 1] == "";
    }
  }
}
