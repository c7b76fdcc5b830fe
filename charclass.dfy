/** Rust's `char::is_alphanumeric`, as `register_code` applies it to a byte.

    The pallet casts each byte with `*c as char`, which yields the code point
    of the same value, U+0000..U+00FF (the Latin-1 block). Only that block can
    reach the test, and on it the Unicode tables give the exact answer below:
    `is_alphanumeric` is `is_alphabetic || is_numeric`, where `is_numeric`
    is the general categories Nd, Nl and No.
 */
module CharClass {

  /** An unsigned 8-bit integer, Rust's `u8`. */
  newtype u8 = x: int | 0 <= x < 0x100

  /** `b as char`: the code point with the byte's value. */
  function AsChar(b: u8): (ch: char)
    ensures ch as int == b as int
  {
    (b as int) as char
  }

  /** The ASCII letters and digits, `0-9A-Za-z`. */
  predicate IsAsciiAlphanumeric(ch: char) {
    '0' <= ch <= '9' || 'A' <= ch <= 'Z' || 'a' <= ch <= 'z'
  }

  /** Unicode property Alphabetic on U+0000..U+00FF: the ASCII letters,
      U+00AA and U+00BA (ordinal indicators), U+00B5 (micro sign) and the
      Latin-1 letters U+00C0..U+00FF except U+00D7 and U+00F7. */
  predicate IsAlphabeticCodePoint(cp: int) {
    (0x41 <= cp <= 0x5A) || (0x61 <= cp <= 0x7A)
    || cp == 0xAA || cp == 0xB5 || cp == 0xBA
    || (0xC0 <= cp <= 0xD6) || (0xD8 <= cp <= 0xF6) || (0xF8 <= cp <= 0xFF)
  }

  /** General categories Nd, Nl, No on U+0000..U+00FF: the ASCII digits,
      the superscripts U+00B2, U+00B3, U+00B9 and the fractions
      U+00BC..U+00BE. */
  predicate IsNumericCodePoint(cp: int) {
    (0x30 <= cp <= 0x39) || cp == 0xB2 || cp == 0xB3 || cp == 0xB9 || (0xBC <= cp <= 0xBE)
  }

  /** `char::is_alphanumeric` on a Latin-1 code point. On ASCII it is exactly
      `0-9A-Za-z`, so every ASCII punctuation mark, space and control
      character fails it; the two Latin-1 symbols U+00D7 and U+00F7 fail it too. */
  function IsAlphanumeric(ch: char): (b: bool)
    requires ch as int < 0x100
    ensures ch as int < 0x80 ==> (b <==> IsAsciiAlphanumeric(ch))
    ensures 0x80 <= ch as int < 0xC0 ==>
      (b <==> ch as int in {0xAA, 0xB2, 0xB3, 0xB5, 0xB9, 0xBA, 0xBC, 0xBD, 0xBE})
    ensures ch as int == 0xD7 || ch as int == 0xF7 ==> !b
    ensures 0xC0 <= ch as int < 0x100 && ch as int != 0xD7 && ch as int != 0xF7 ==> b
  {
    IsAlphabeticCodePoint(ch as int) || IsNumericCodePoint(ch as int)
  }

  /** The test `register_code` applies to one byte of a code. */
  predicate ByteIsAlphanumeric(b: u8) {
    IsAlphanumeric(AsChar(b))
  }
}
