/** 128-bit identifiers (`System.Guid`) and their default text form. */
module Guids {

  /** A Guid is a 128-bit value. */
  type Guid = g: nat | g < 0x1_0000_0000_0000_0000_0000_0000_0000_0000

  /** The characters `Guid.ToString()` writes for a nibble. */
  predicate IsHexDigit(c: char) {
    '0' <= c <= '9' || 'a' <= c <= 'f'
  }

  function HexDigit(d: nat): (c: char)
    requires d < 16
    ensures IsHexDigit(c)
  {
    if d < 10 then ('0' as int + d) as char else ('a' as int + d - 10) as char
  }

  /** The `width` low nibbles of `n`, most significant first, in lower-case hex. */
  function Hex(n: nat, width: nat): (r: string)
    ensures |r| == width
    ensures forall i :: 0 <= i < width ==> IsHexDigit(r[i])
  {
    if width == 0 then [] else Hex(n / 16, width - 1) + [HexDigit(n % 16)]
  }

  /** The text of a Guid: 32 lower-case hex digits in groups of 8, 4, 4, 4
      and 12 separated by hyphens. This is both `Guid.ToString()` in its
      default "D" format and the text PostgreSQL stores when a `uuid`
      parameter is written into a text column. */
  function GuidText(g: Guid): (r: string)
    ensures |r| == 36
    ensures forall i :: 0 <= i < 36 && i != 8 && i != 13 && i != 18 && i != 23 ==> IsHexDigit(r[i])
    ensures r[8] == r[13] == r[18] == r[23] == '-'
  {
    var h := Hex(g, 32);
    h[..8] + "-" + h[8..12] + "-" + h[12..16] + "-" + h[16..20] + "-" + h[20..]
  }
}
