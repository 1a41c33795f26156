/** Bytes and the two-character hexadecimal notation the editor reads and writes. */
module Bytes {

  /** One element of a `Uint8Array`. */
  newtype byte = x: int | 0 <= x < 256

  /** The smaller of two integers. */
  function Min(a: int, b: int): (m: int)
    ensures m <= a && m <= b && (m == a || m == b)
  {
    if a <= b then a else b
  }

  /** A character the key filter `/^[a-fA-F0-9]$/` accepts. */
  predicate IsHexDigit(c: char) {
    ('0' <= c <= '9') || ('a' <= c <= 'f') || ('A' <= c <= 'F')
  }

  /** A key name consisting of exactly one hexadecimal digit. */
  predicate IsHexKey(key: string) {
    |key| == 1 && IsHexDigit(key[0])
  }

  /** The value of one digit as `parseInt` reads it (either case). */
  function HexValue(c: char): (v: nat)
    requires IsHexDigit(c)
    ensures v < 16
    ensures ('0' <= c <= '9') ==> v == c as int - '0' as int
    ensures ('a' <= c <= 'f') ==> v == c as int - 'a' as int + 10
    ensures ('A' <= c <= 'F') ==> v == c as int - 'A' as int + 10
  {
    if '0' <= c <= '9' then c as int - '0' as int
    else if 'a' <= c <= 'f' then c as int - 'a' as int + 10
    else c as int - 'A' as int + 10
  }

  /** `parseInt(hi + lo, 16)`: the byte two buffered digits stand for. */
  function ParseHexPair(hi: char, lo: char): (b: byte)
    requires IsHexDigit(hi) && IsHexDigit(lo)
    ensures b as int == 16 * HexValue(hi) + HexValue(lo)
  {
    (16 * HexValue(hi) + HexValue(lo)) as byte
  }

  /** An upper-case digit, as `toString(16).toUpperCase()` writes it. */
  predicate IsUpperHexDigit(c: char) {
    ('0' <= c <= '9') || ('A' <= c <= 'F')
  }

  function HexDigit(n: nat): (c: char)
    requires n < 16
    ensures IsHexDigit(c) && IsUpperHexDigit(c) && HexValue(c) == n
  {
    if n < 10 then ('0' as int + n) as char else ('A' as int + n - 10) as char
  }

  /** `val.toString(16).toUpperCase().padStart(2, '0')`: two upper-case digits,
      the high nibble first. */
  function HexText(v: byte): (s: string)
    ensures |s| == 2 && IsUpperHexDigit(s[0]) && IsUpperHexDigit(s[1])
    ensures HexValue(s[0]) == v as int / 16 && HexValue(s[1]) == v as int % 16
  {
    [HexDigit(v as int / 16), HexDigit(v as int % 16)]
  }

  /** Reading back a cell the view wrote gives the byte it shows: the key
      parser of the edit session and the cell formatter of the view agree. */
  lemma HexTextRoundTrip(v: byte)
    ensures ParseHexPair(HexText(v)[0], HexText(v)[1]) == v
  {
    var s := HexText(v);
    assert 16 * HexValue(s[0]) + HexValue(s[1]) == v as int;
  }

  /** Conversely, two upper-case digits are exactly what the formatter
      writes for the byte they parse to (so the text of a cell determines its byte). */
  lemma HexTextOfParsed(hi: char, lo: char)
    requires IsUpperHexDigit(hi) && IsUpperHexDigit(lo)
    ensures HexText(ParseHexPair(hi, lo)) == [hi, lo]
  {
    var v := ParseHexPair(hi, lo);
    var s := HexText(v);
    assert HexValue(s[0]) == HexValue(hi) && HexValue(s[1]) == HexValue(lo);
    UpperDigitDeterminedByValue(s[0], hi);
    UpperDigitDeterminedByValue(s[1], lo);
  }

  /** A digit as the view writes it: `a`-`f` in upper case, others unchanged. */
  function Upper(c: char): char {
    if 'a' <= c <= 'f' then (c as int - 'a' as int + 'A' as int) as char else c
  }

  /** `buildEdit` accepts digits of either case: the byte two typed digits
      parse to is drawn as the same two digits, in upper case. */
  lemma HexTextOfTyped(hi: char, lo: char)
    requires IsHexDigit(hi) && IsHexDigit(lo)
    ensures HexText(ParseHexPair(hi, lo)) == [Upper(hi), Upper(lo)]
  {
    UpperKeepsValue(hi);
    UpperKeepsValue(lo);
    assert ParseHexPair(hi, lo) == ParseHexPair(Upper(hi), Upper(lo));
    HexTextOfParsed(Upper(hi), Upper(lo));
  }

  lemma UpperKeepsValue(c: char)
    requires IsHexDigit(c)
    ensures IsUpperHexDigit(Upper(c)) && HexValue(Upper(c)) == HexValue(c)
  {
  }

  lemma UpperDigitDeterminedByValue(a: char, b: char)
    requires IsUpperHexDigit(a) && IsUpperHexDigit(b) && HexValue(a) == HexValue(b)
    ensures a == b
  {
  }
}
