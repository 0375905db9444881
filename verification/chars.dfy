/**
 * Bytes of a C++ `std::string`, the ASCII character classes that the file
 * helpers test them against, and hexadecimal numerals. The comparisons the
 * encoders write out themselves do not depend on whether `char` is signed.
 * The library classifiers (`isxdigit`, `isspace`, `tolower`) follow the "C"
 * locale and treat a byte of 0x80 or more as outside every class.
 */
module Chars {

  /** One element of a `std::string`: a byte, written as a character below 256. */
  type Byte = c: char | c as int < 256

  /** The byte whose unsigned value is `v`. */
  function ByteOf(v: nat): (c: Byte)
    requires v < 256
    ensures c as int == v
  {
    v as char
  }

  predicate IsUpper(c: Byte) { 'A' <= c <= 'Z' }

  predicate IsLower(c: Byte) { 'a' <= c <= 'z' }

  predicate IsDigit(c: Byte) { '0' <= c <= '9' }

  /** The letters and digits that both URI encoders always copy. */
  predicate IsAlnum(c: Byte) { IsUpper(c) || IsLower(c) || IsDigit(c) }

  /** `isxdigit` in the "C" locale. */
  predicate IsHexDigit(c: Byte) { IsDigit(c) || 'a' <= c <= 'f' || 'A' <= c <= 'F' }

  /** `isspace` in the "C" locale: space, tab, newline, vertical tab, form feed, carriage return. */
  predicate IsSpace(c: Byte) { c == ' ' || '\t' <= c <= '\r' }

  /** `tolower` in the "C" locale: only 'A'..'Z' change. */
  function ToLower(c: Byte): (r: Byte)
    ensures !IsUpper(r)
    ensures IsUpper(c) ==> IsLower(r) && r as int - c as int == 'a' as int - 'A' as int
    ensures !IsUpper(c) ==> r == c
  {
    if IsUpper(c) then (c as int + 32) as char else c
  }

  /** The value of a hexadecimal digit of either case. */
  function HexValue(c: Byte): (v: nat)
    requires IsHexDigit(c)
    ensures v < 16
  {
    if IsDigit(c) then c as int - '0' as int
    else if 'a' <= c <= 'f' then c as int - 'a' as int + 10
    else c as int - 'A' as int + 10
  }

  /** The upper-case hexadecimal digit written for `v`, as `std::uppercase` formats it. */
  function HexDigit(v: nat): (c: Byte)
    requires v < 16
    ensures IsHexDigit(c) && IsAlnum(c) && !IsLower(c)
    ensures HexValue(c) == v
  {
    if v < 10 then ('0' as int + v) as char else ('A' as int + v - 10) as char
  }

  /** The value of a string of hexadecimal digits read as one base-16 numeral. */
  function HexNumeral(digits: seq<Byte>): nat
    requires forall i :: 0 <= i < |digits| ==> IsHexDigit(digits[i])
    decreases |digits|
  {
    if |digits| == 0 then 0
    else 16 * HexNumeral(digits[..|digits| - 1]) + HexValue(digits[|digits| - 1])
  }

  /**
   * The upper-case hexadecimal numeral of a byte: without leading zero as
   * `hex << uppercase` prints it, or in exactly two digits when `padded`.
   */
  function HexField(b: Byte, padded: bool): (r: seq<Byte>)
    ensures |r| == (if padded || b as int >= 16 then 2 else 1)
    ensures forall i :: 0 <= i < |r| ==> IsHexDigit(r[i]) && IsAlnum(r[i]) && !IsLower(r[i])
    ensures HexNumeral(r) == b as int
  {
    if !padded && b as int < 16 then
      [HexDigit(b as int)]
    else
      var r := [HexDigit(b as int / 16), HexDigit(b as int % 16)];
      assert r[..1] == [HexDigit(b as int / 16)];
      assert HexNumeral(r[..1]) == b as int / 16 by {
        assert r[..1][..0] == [];
      }
      r
  }

  lemma AppendAssoc(p: seq<Byte>, q: seq<Byte>, r: seq<Byte>)
    ensures p + (q + r) == (p + q) + r
  {
  }
}
