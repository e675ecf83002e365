/** Unbounded decimal numerals, as `format!("{}")` prints an unsigned integer. */
module Numerals {
  function Decimal(n: nat): string {
    if n < 10 then [('0' as int + n) as char]
    else Decimal(n / 10) + [('0' as int + n % 10) as char]
  }

  predicate IsDigit(c: char) {
    '0' <= c <= '9'
  }

  predicate Digits(s: string) {
    forall i :: 0 <= i < |s| ==> IsDigit(s[i])
  }

  /** The unbounded value of a string of digits. */
  function Value(s: string): nat
    requires Digits(s)
  {
    if s == "" then 0 else 10 * Value(s[..|s| - 1]) + (s[|s| - 1] as int - '0' as int)
  }

  lemma {:induction false} DecimalMeaning(n: nat)
    ensures Decimal(n) != "" && Digits(Decimal(n)) && Value(Decimal(n)) == n
    ensures n > 0 ==> Decimal(n)[0] != '0'
  {
    var d := Decimal(n);
    if n >= 10 {
      DecimalMeaning(n / 10);
      assert d[..|d| - 1] == Decimal(n / 10);
    } else {
      assert d[..|d| - 1] == "";
    }
  }

  /** A digit string without a leading zero is the decimal form of its value. */
  lemma {:induction false} CanonicalDecimal(s: string)
    requires s != "" && Digits(s) && s[0] != '0'
    ensures Value(s) > 0 && Decimal(Value(s)) == s
  {
    var before, c := s[..|s| - 1], s[|s| - 1];
    assert s == before + [c];
    if before == "" {
      assert Value(before) == 0;
    } else {
      CanonicalDecimal(before);
      assert Value(s) / 10 == Value(before);
    }
  }
}
