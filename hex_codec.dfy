/**
 * Lowercase hexadecimal digits, as written by Java's `String.format("%02x", b)`
 * and Python's `f'{b:02x}'` for a value 0..255.
 */
module HexCodec {
  import opened Bytes

  const Digits: string := "0123456789abcdef"

  predicate IsHexDigit(c: char) {
    '0' <= c <= '9' || 'a' <= c <= 'f'
  }

  /** The lowercase hex digit of a value 0..15. */
  function HexDigit(n: int): (c: char)
    requires 0 <= n < 16
    ensures IsHexDigit(c)
  {
    Digits[n]
  }

  /** The value of a lowercase hex digit. */
  function DigitValue(c: char): (n: int)
    requires IsHexDigit(c)
    ensures 0 <= n < 16
  {
    if '0' <= c <= '9' then c as int - '0' as int else c as int - 'a' as int + 10
  }

  /** The digit of n is '0'..'9' for n below ten and 'a'..'f' above. */
  lemma HexDigitCode(n: int)
    requires 0 <= n < 16
    ensures n < 10 ==> HexDigit(n) as int == '0' as int + n
    ensures n >= 10 ==> HexDigit(n) as int == 'a' as int + n - 10
  {
  }

  /** Reading a digit back gives its value. */
  lemma DigitOfValue(n: int)
    requires 0 <= n < 16
    ensures DigitValue(HexDigit(n)) == n
  {
    HexDigitCode(n);
  }

  /** Writing the value of a digit gives the digit: DigitValue and HexDigit are inverse. */
  lemma ValueOfDigit(c: char)
    requires IsHexDigit(c)
    ensures HexDigit(DigitValue(c)) == c
  {
    HexDigitCode(DigitValue(c));
  }

  /** `%02x`: exactly two lowercase digits, high nibble first. */
  function Hex2(b: Byte): (s: string)
    ensures |s| == 2 && IsHexDigit(s[0]) && IsHexDigit(s[1])
  {
    [HexDigit(b / 16), HexDigit(b % 16)]
  }

  /** The two digits spell the value back. */
  lemma Hex2Decodes(b: Byte)
    ensures 16 * DigitValue(Hex2(b)[0]) + DigitValue(Hex2(b)[1]) == b
  {
    DigitOfValue(b / 16);
    DigitOfValue(b % 16);
  }

  lemma Hex2Injective(a: Byte, b: Byte)
    requires Hex2(a) == Hex2(b)
    ensures a == b
  {
    Hex2Decodes(a);
    Hex2Decodes(b);
  }

  /** Any two digits are the `%02x` form of the value they spell. */
  lemma Hex2OfDigits(c: char, d: char)
    requires IsHexDigit(c) && IsHexDigit(d)
    ensures 0 <= 16 * DigitValue(c) + DigitValue(d) < 256
    ensures Hex2(16 * DigitValue(c) + DigitValue(d)) == [c, d]
  {
    var hi, lo := DigitValue(c), DigitValue(d);
    var v := 16 * hi + lo;
    DivMod16(hi, lo);
    ValueOfDigit(c);
    ValueOfDigit(d);
    assert Hex2(v)[0] == HexDigit(hi);
    assert Hex2(v)[1] == HexDigit(lo);
  }

  lemma DivMod16(hi: int, lo: int)
    requires 0 <= hi < 16 && 0 <= lo < 16
    ensures (16 * hi + lo) / 16 == hi && (16 * hi + lo) % 16 == lo
  {
  }
}
