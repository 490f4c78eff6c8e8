/** Decimal digits, and the smaller of two numbers. */
module Numbers {
  function Min(a: nat, b: nat): nat { if a < b then a else b }

  /** The code of a decimal digit. */
  predicate IsDigitCode(c: int) { 0x30 <= c <= 0x39 }

  predicate IsDigit(c: char) { IsDigitCode(c as int) }

  /** The number a digit string stands for; other characters count as zero. */
  function DecimalValue(digits: string): nat {
    if digits == "" then 0
    else
      var last := digits[|digits| - 1];
      10 * DecimalValue(digits[..|digits| - 1]) + if IsDigit(last) then last as int - '0' as int else 0
  }

  function Digit(n: nat): (c: char)
    requires n < 10
    ensures IsDigit(c) && c as int - '0' as int == n
  {
    '0' + n as char
  }

  function Decimal(n: nat): string {
    if n < 10 then [Digit(n)] else Decimal(n / 10) + [Digit(n % 10)]
  }

  lemma {:induction false} DecimalReads(n: nat)
    ensures DecimalValue(Decimal(n)) == n && '\0' !in Decimal(n)
  {
    if n < 10 {
      assert [Digit(n)][..0] == "";
    } else {
      DecimalReads(n / 10);
      assert (Decimal(n / 10) + [Digit(n % 10)])[..|Decimal(n / 10)|] == Decimal(n / 10);
    }
  }
}
