/**
 * `File::hexToBin` (utility/file_utility.cpp): the input is read two
 * characters at a time, each pair is converted with `strtoul(pair, 0, 16)`
 * and the result is truncated to `unsigned char`; a trailing odd character is
 * never read.
 */
module HexToBin {
  import opened Chars

  /**
   * `strtoul` on the two-character buffer `c1 c2` with base 16 in the "C"
   * locale, truncated to `unsigned char`. White space before the number is
   * skipped and one '+' or '-' is accepted; then the hexadecimal digits that
   * follow are read ("0x" alone reads as 0). A '-' negates in unsigned
   * arithmetic, which leaves (256 - v) mod 256 after truncation. With no digit
   * at all the result is 0.
   */
  function StrtoulPair(c1: Byte, c2: Byte): (r: Byte)
    ensures IsHexDigit(c1) && IsHexDigit(c2) ==> r as int == 16 * HexValue(c1) + HexValue(c2)
    ensures IsHexDigit(c1) && !IsHexDigit(c2) ==> r as int == HexValue(c1)
    ensures (IsSpace(c1) || c1 == '+') && IsHexDigit(c2) ==> r as int == HexValue(c2)
    ensures c1 == '-' && IsHexDigit(c2) ==> (r as int + HexValue(c2)) % 256 == 0
    ensures !IsHexDigit(c1) && !(IsHexDigit(c2) && (IsSpace(c1) || c1 == '+' || c1 == '-')) ==> r == '\0'
  {
    if IsHexDigit(c1) then
      if IsHexDigit(c2) then ByteOf(16 * HexValue(c1) + HexValue(c2)) else ByteOf(HexValue(c1))
    else if (IsSpace(c1) || c1 == '+') && IsHexDigit(c2) then ByteOf(HexValue(c2))
    else if c1 == '-' && IsHexDigit(c2) then ByteOf((256 - HexValue(c2)) % 256)
    else '\0'
  }

  /** `File::hexToBin`: one byte per complete pair of characters. */
  function HexToBin(s: seq<Byte>): (r: seq<Byte>)
    ensures |r| == |s| / 2
    ensures forall i :: 0 <= i < |r| ==> r[i] == StrtoulPair(s[2 * i], s[2 * i + 1])
    decreases |s|
  {
    if |s| < 2 then []
    else
      var t := s[2..];
      var r := [StrtoulPair(s[0], s[1])] + HexToBin(t);
      forall i | 1 <= i < |r|
        ensures r[i] == StrtoulPair(s[2 * i], s[2 * i + 1])
      {
        assert t[2 * (i - 1)] == s[2 * i] && t[2 * (i - 1) + 1] == s[2 * i + 1];
      }
      r
  }

  /** A trailing odd character does not change the result. */
  lemma {:induction false} OddTailIgnored(s: seq<Byte>, c: Byte)
    requires |s| % 2 == 0
    ensures HexToBin(s + [c]) == HexToBin(s)
    decreases |s|
  {
    if |s| >= 2 {
      assert (s + [c])[2..] == s[2..] + [c];
      OddTailIgnored(s[2..], c);
    } else {
      assert |s + [c]| == 1;
    }
  }

  /** On hexadecimal digits, byte `i` is the two-digit numeral at positions 2i and 2i+1. */
  lemma HexDigitsDecode(s: seq<Byte>)
    requires forall i :: 0 <= i < |s| ==> IsHexDigit(s[i])
    ensures |HexToBin(s)| == |s| / 2
    ensures forall i :: 0 <= i < |s| / 2 ==> HexToBin(s)[i] as int == 16 * HexValue(s[2 * i]) + HexValue(s[2 * i + 1])
  {
    var r := HexToBin(s);
    forall i | 0 <= i < |s| / 2
      ensures r[i] as int == 16 * HexValue(s[2 * i]) + HexValue(s[2 * i + 1])
    {
      assert r[i] == StrtoulPair(s[2 * i], s[2 * i + 1]);
    }
  }

  /** The two-digit upper-case hexadecimal spelling of a byte string. */
  function HexString(bytes: seq<Byte>): (r: seq<Byte>)
    ensures |r| == 2 * |bytes|
    decreases |bytes|
  {
    if |bytes| == 0 then [] else HexField(bytes[0], true) + HexString(bytes[1..])
  }

  /** Reading back the two-digit hexadecimal spelling of a byte string gives the bytes. */
  lemma {:induction false} HexStringRoundTrip(bytes: seq<Byte>)
    ensures HexToBin(HexString(bytes)) == bytes
    decreases |bytes|
  {
    if |bytes| > 0 {
      var h := HexField(bytes[0], true);
      var t := HexString(bytes[1..]);
      var s := h + t;
      assert s[0] == h[0] && s[1] == h[1] && s[2..] == t;
      assert HexNumeral(h) == 16 * HexValue(h[0]) + HexValue(h[1]) by {
        assert h[..1] == [h[0]];
        assert h[..1][..0] == [];
      }
      HexStringRoundTrip(bytes[1..]);
    }
  }

  /**
   * Characters other than hexadecimal digits are not rejected: white space
   * and a sign before a digit are read the way `strtoul` reads them, and a
   * pair without a leading digit gives 0.
   */
  lemma NonDigitPairs()
    ensures HexToBin(" A") == ['\n']
    ensures HexToBin("-1") == ['\U{FF}']
    ensures HexToBin("zz") == ['\0']
    ensures HexToBin("7g") == ['\U{7}']
  {
  }
}
