/** Hexadecimal digits as ASCII bytes. */
module Hexadecimal {
  import opened Bytes
  import opened Wrappers

  function HexDigit(d: nat): byte
    requires d < 16
  {
    if d < 10 then 48 + d else 87 + d
  }

  /** The lower-case digits 0 to 9 and a to f. */
  lemma HexDigits(d: nat)
    requires d < 16
    ensures HexDigit(d) == [48, 49, 50, 51, 52, 53, 54, 55, 56, 57, 97, 98, 99, 100, 101, 102][d]
  {}

  /** Both letter cases are understood. */
  function DigitValue(b: byte): Option<nat> {
    if 48 <= b <= 57 then Some(b - 48)
    else if 97 <= b <= 102 then Some(b - 87)
    else if 65 <= b <= 70 then Some(b - 55)
    else None
  }

  /** A byte has a value exactly if it is that digit, or its capital letter. */
  lemma DigitValueIff(b: byte, d: nat)
    requires d < 16
    ensures DigitValue(b) == Some(d) <==> b == HexDigit(d) || (d >= 10 && b + 32 == HexDigit(d))
    ensures DigitValue(b).Some? ==> DigitValue(b).value < 16
  {}
}
