/** Hexadecimal digits in ASCII. */
module Hexadecimal {
  import opened Common

  function HexDigit(v: nat, upper: bool): (c: byte)
    requires v < 16
    ensures HexValue(c) == Some(v)
  {
    if v < 10 then 48 + v else if upper then 55 + v else 87 + v
  }

  /** The value of a hexadecimal digit of either case. */
  function HexValue(c: byte): (v: Option<nat>)
    ensures v.Some? ==> v.value < 16
  {
    if 48 <= c <= 57 then Some(c - 48)
    else if 65 <= c <= 70 then Some(c - 55)
    else if 97 <= c <= 102 then Some(c - 87)
    else None
  }

  /** The digits as they are printed. */
  lemma DigitTable(v: nat)
    requires v < 16
    ensures HexDigit(v, true) as char == "0123456789ABCDEF"[v] && HexDigit(v, false) as char == "0123456789abcdef"[v]
  {
  }

  /** Nothing else is a digit. */
  lemma OnlyDigits(c: byte)
    ensures HexValue(c).Some? <==> c as char in "0123456789ABCDEFabcdef"
  {
  }
}
