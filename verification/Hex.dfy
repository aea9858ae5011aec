// Hexadecimal digits, read in either case and printed in lower case.
module Hex {
  import opened Machine

  predicate IsHex(c: char) {
    '0' <= c <= '9' || 'a' <= c <= 'f' || 'A' <= c <= 'F'
  }

  function HexValue(c: char): (v: nat)
    requires IsHex(c)
    ensures v < 16
  {
    if '0' <= c <= '9' then c as int - '0' as int
    else if 'a' <= c <= 'f' then 10 + c as int - 'a' as int
    else 10 + c as int - 'A' as int
  }

  function HexDigit(v: nat): (c: char)
    requires v < 16
    ensures IsHex(c) && HexValue(c) == v
  {
    if v < 10 then '0' + v as char else 'a' + (v - 10) as char
  }

  // One conversion %02x.
  function PrintByte(b: byte): string {
    [HexDigit(b / 16), HexDigit(b % 16)]
  }

  // The digits are these characters, each worth its position, and no others.
  lemma DigitPositions(v: nat)
    requires v < 16
    ensures var lower, upper := "0123456789abcdef"[v], "0123456789ABCDEF"[v];
      && HexDigit(v) == lower
      && IsHex(lower) && HexValue(lower) == v
      && IsHex(upper) && HexValue(upper) == v
  {
  }

  lemma NoOtherDigits(c: char)
    ensures IsHex(c) <==> c in "0123456789abcdef" || c in "0123456789ABCDEF"
  {
    if IsHex(c) {
      DigitPositions(HexValue(c));
      var lower, upper := "0123456789abcdef", "0123456789ABCDEF";
      assert c == lower[HexValue(c)] || c == upper[HexValue(c)];
    }
  }

  lemma PrintByteInjective(a: byte, b: byte)
    requires PrintByte(a) == PrintByte(b)
    ensures a == b
  {
    assert PrintByte(a)[0] == PrintByte(b)[0] && PrintByte(a)[1] == PrintByte(b)[1];
    hide HexDigit;
    assert a / 16 == HexValue(HexDigit(a / 16)) == HexValue(HexDigit(b / 16)) == b / 16;
    assert a % 16 == HexValue(HexDigit(a % 16)) == HexValue(HexDigit(b % 16)) == b % 16;
  }
}
