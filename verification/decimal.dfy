/**
 Decimal rendering of a byte count, as `fmt.Sprintf("%d", n)` writes the
 `Content-Length` value, and the digit-string value that inverts it.
 */
module DecimalFormat {
  import opened Bytes

  predicate IsDigit(b: byte) {
    '0' <= b <= '9'
  }

  predicate IsDigits(s: Bytes) {
    forall i :: 0 <= i < |s| ==> IsDigit(s[i])
  }

  /** Canonical form: at least one digit and no leading zero unless the number is 0. */
  predicate IsCanonical(s: Bytes) {
    |s| >= 1 && IsDigits(s) && (|s| > 1 ==> s[0] != '0')
  }

  function DigitByte(d: nat): (b: byte)
    requires d < 10
    ensures IsDigit(b) && b as int - '0' as int == d
  {
    ('0' as int + d) as char
  }

  /** The number a string of decimal digits denotes, most significant digit first. */
  function DigitsValue(s: Bytes): nat
    requires IsDigits(s)
  {
    if s == [] then 0
    else 10 * DigitsValue(s[..|s| - 1]) + (s[|s| - 1] as int - '0' as int)
  }

  /** `%d` of a non-negative integer. */
  function Decimal(n: nat): (s: Bytes)
    ensures IsCanonical(s)
  {
    if n < 10 then [DigitByte(n)]
    else Decimal(n / 10) + [DigitByte(n % 10)]
  }

  /** Reading the rendering back gives the number. */
  lemma {:induction false} DecimalValue(n: nat)
    ensures DigitsValue(Decimal(n)) == n
  {
    if n >= 10 {
      var s := Decimal(n);
      assert s[..|s| - 1] == Decimal(n / 10);
      DecimalValue(n / 10);
    }
  }

  lemma {:induction false} LeadingDigitPositive(s: Bytes)
    requires IsCanonical(s) && s[0] != '0'
    ensures DigitsValue(s) >= 1
    decreases |s|
  {
    if |s| > 1 {
      LeadingDigitPositive(s[..|s| - 1]);
    }
  }

  /** Every canonical digit string is the rendering of its value. */
  lemma {:induction false} DecimalOfValue(s: Bytes)
    requires IsCanonical(s)
    ensures Decimal(DigitsValue(s)) == s
    decreases |s|
  {
    var d := s[|s| - 1] as int - '0' as int;
    if |s| == 1 {
      assert DigitByte(d) == s[0];
    } else {
      var front := s[..|s| - 1];
      LeadingDigitPositive(front);
      DecimalOfValue(front);
      var v := DigitsValue(s);
      assert v == 10 * DigitsValue(front) + d;
      assert v / 10 == DigitsValue(front) && v % 10 == d;
      assert DigitByte(d) == s[|s| - 1];
      assert s == front + [s[|s| - 1]];
    }
  }

  /** Different lengths render differently. */
  lemma DecimalInjective(m: nat, n: nat)
    requires Decimal(m) == Decimal(n)
    ensures m == n
  {
    DecimalValue(m);
    DecimalValue(n);
  }
}
