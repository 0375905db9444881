/**
 * Percent-encoding of paths: `File::toUri`, `File::toUriPath`,
 * `File::fullPathUrl` (POSIX branch) and the decoder `File::fromUriPath`
 * (utility/file_utility.cpp).
 *
 * Both encoders run the same loop and differ only in the characters they copy,
 * so they are one function `Encode` over a `Charset`. The loop writes an
 * escaped byte with `hex << uppercase`, which prints no leading zero; the
 * `padded` flag selects the two-digit `%HH` form of section 2.1 of RFC 3986
 * instead (see `UriRoundTrip` for why the difference matters).
 */
module UriEncoding {
  import opened Chars

  /** The characters an encoder copies besides ASCII letters and digits. */
  datatype Charset =
    | Rfc2396   // File::toUri: the reserved (section 2.2) and mark (section 2.3) characters of RFC 2396
    | UriPath   // File::toUriPath: the unreserved characters of RFC 3986 (section 2.3) and '/'

  /** The characters besides ASCII letters and digits that an encoder copies, as the source lists them. */
  function Marks(cs: Charset): seq<Byte>
  {
    match cs
    case Rfc2396 => "-_.!~*'();/?:@&=+$,"
    case UriPath => "-._~/"
  }

  /** Membership in `Marks(cs)`, spelled out character by character. */
  predicate IsMark(cs: Charset, c: Byte)
  {
    match cs
    case Rfc2396 =>
      c == '-' || c == '_' || c == '.' || c == '!' || c == '~' || c == '*' || c == '\'' || c == '(' || c == ')' ||
      c == ';' || c == '/' || c == '?' || c == ':' || c == '@' || c == '&' || c == '=' || c == '+' || c == '$' || c == ','
    case UriPath =>
      c == '-' || c == '.' || c == '_' || c == '~' || c == '/'
  }

  lemma MarksListed(cs: Charset, c: Byte)
    ensures IsMark(cs, c) <==> c in Marks(cs)
  {
  }

  /** Whether the encoder copies `c` unchanged. */
  predicate Kept(cs: Charset, c: Byte)
  {
    IsAlnum(c) || IsMark(cs, c)
  }

  /** What the encoder writes for one byte: the byte itself, or '%' and its numeral. */
  function Escape(cs: Charset, c: Byte, padded: bool): seq<Byte>
  {
    if Kept(cs, c) then [c] else ['%'] + HexField(c, padded)
  }

  /** The encoding loop: every byte is copied or escaped on its own, so the output never shrinks. */
  function Encode(s: seq<Byte>, cs: Charset, padded: bool): (r: seq<Byte>)
    ensures |r| >= |s|
    decreases |s|
  {
    if |s| == 0 then []
    else Escape(cs, s[0], padded) + Encode(s[1..], cs, padded)
  }

  /**
   * One byte: a kept byte is written as itself, any other as '%' followed by
   * the upper-case hexadecimal digits of its value.
   */
  lemma EscapeFacts(cs: Charset, c: Byte, padded: bool)
    ensures Kept(cs, c) ==> Escape(cs, c, padded) == [c]
    ensures !Kept(cs, c) ==> |Escape(cs, c, padded)| == (if padded || c as int >= 16 then 3 else 2)
    ensures !Kept(cs, c) ==> Escape(cs, c, padded)[0] == '%'
    ensures !Kept(cs, c) ==> forall j :: 1 <= j < |Escape(cs, c, padded)| ==>
      IsHexDigit(Escape(cs, c, padded)[j]) && !IsLower(Escape(cs, c, padded)[j])
    ensures !Kept(cs, c) ==> HexNumeral(Escape(cs, c, padded)[1..]) == c as int
    ensures forall j :: 0 <= j < |Escape(cs, c, padded)| ==> Kept(cs, Escape(cs, c, padded)[j]) || Escape(cs, c, padded)[j] == '%'
  {
    if !Kept(cs, c) {
      var h := HexField(c, padded);
      forall j | 1 <= j < 1 + |h|
        ensures Kept(cs, (['%'] + h)[j])
      {
        assert (['%'] + h)[j] == h[j - 1];
      }
    }
  }

  /** The first byte of an encoding: the byte itself if kept, otherwise '%'. */
  lemma EncodeHead(s: seq<Byte>, cs: Charset, padded: bool)
    requires |s| > 0
    ensures Encode(s, cs, padded) == Escape(cs, s[0], padded) + Encode(s[1..], cs, padded)
    ensures Encode(s, cs, padded)[0] == if Kept(cs, s[0]) then s[0] else '%'
  {
  }

  /** Every byte of `s` is one the encoder copies. */
  predicate AllKept(cs: Charset, s: seq<Byte>)
  {
    forall i :: 0 <= i < |s| ==> Kept(cs, s[i])
  }

  lemma AllKeptHead(cs: Charset, s: seq<Byte>)
    requires |s| > 0
    ensures AllKept(cs, s) <==> Kept(cs, s[0]) && AllKept(cs, s[1..])
  {
    assert forall i :: 0 <= i < |s[1..]| ==> s[1..][i] == s[i + 1];
  }

  /** `EncodeKeepsLength` for `s`, given it for the tail of `s`. */
  lemma EncodeKeepsLengthStep(s: seq<Byte>, cs: Charset, padded: bool)
    requires |s| > 0
    requires |Encode(s[1..], cs, padded)| == |s| - 1 <==> AllKept(cs, s[1..])
    requires AllKept(cs, s[1..]) ==> Encode(s[1..], cs, padded) == s[1..]
    ensures |Encode(s, cs, padded)| == |s| <==> AllKept(cs, s)
    ensures AllKept(cs, s) ==> Encode(s, cs, padded) == s
  {
    AllKeptHead(cs, s);
    EscapeFacts(cs, s[0], padded);
    EncodeHead(s, cs, padded);
    assert s == [s[0]] + s[1..];
  }

  /**
   * The encoder keeps the length exactly when every byte is kept, and then
   * returns its input.
   */
  lemma {:induction false} EncodeKeepsLength(s: seq<Byte>, cs: Charset, padded: bool)
    ensures |Encode(s, cs, padded)| == |s| <==> AllKept(cs, s)
    ensures AllKept(cs, s) ==> Encode(s, cs, padded) == s
    decreases |s|
  {
    if |s| > 0 {
      EncodeKeepsLength(s[1..], cs, padded);
      EncodeKeepsLengthStep(s, cs, padded);
    }
  }

  /** Every byte of `r` is a kept character or '%'. */
  predicate KeptOrPercent(cs: Charset, r: seq<Byte>)
  {
    forall j :: 0 <= j < |r| ==> Kept(cs, r[j]) || r[j] == '%'
  }

  lemma KeptOrPercentAppend(cs: Charset, p: seq<Byte>, q: seq<Byte>)
    requires KeptOrPercent(cs, p) && KeptOrPercent(cs, q)
    ensures KeptOrPercent(cs, p + q)
  {
    forall j | |p| <= j < |p + q|
      ensures Kept(cs, (p + q)[j]) || (p + q)[j] == '%'
    {
      assert (p + q)[j] == q[j - |p|];
    }
  }

  /** Every byte the encoder writes is a kept character or '%'. */
  lemma {:induction false} EncodeAlphabet(s: seq<Byte>, cs: Charset, padded: bool)
    ensures KeptOrPercent(cs, Encode(s, cs, padded))
    decreases |s|
  {
    if |s| > 0 {
      EncodeAlphabet(s[1..], cs, padded);
      EscapeFacts(cs, s[0], padded);
      EncodeHead(s, cs, padded);
      KeptOrPercentAppend(cs, Escape(cs, s[0], padded), Encode(s[1..], cs, padded));
    }
  }

  /**
   * `File::toUri`: letters, digits and `-_.!~*'();/?:@&=+$,` are copied, every
   * other byte becomes '%' and its unpadded upper-case hexadecimal value.
   */
  function ToUri(path: seq<Byte>): (r: seq<Byte>)
    ensures |r| >= |path|
    ensures |r| == |path| <==> AllKept(Rfc2396, path)
    ensures AllKept(Rfc2396, path) ==> r == path
    ensures KeptOrPercent(Rfc2396, r)
  {
    EncodeKeepsLength(path, Rfc2396, false);
    EncodeAlphabet(path, Rfc2396, false);
    Encode(path, Rfc2396, false)
  }

  /**
   * `File::toUriPath`: letters, digits and `-._~/` are copied, every other
   * byte becomes '%' and its unpadded upper-case hexadecimal value.
   */
  function ToUriPath(path: seq<Byte>): (r: seq<Byte>)
    ensures |r| >= |path|
    ensures |r| == |path| <==> AllKept(UriPath, path)
    ensures AllKept(UriPath, path) ==> r == path
    ensures KeptOrPercent(UriPath, r)
  {
    EncodeKeepsLength(path, UriPath, false);
    EncodeAlphabet(path, UriPath, false);
    Encode(path, UriPath, false)
  }

  /** `File::fullPathUrl` on POSIX: the path, encoded by `File::toUri`, after "file://". */
  function FullPathUrl(path: seq<Byte>): (r: seq<Byte>)
    ensures |r| >= 7 + |path|
    ensures r[..7] == "file://"
    ensures r[7..] == ToUri(path)
    ensures AllKept(Rfc2396, path) ==> r[7..] == path
  {
    "file://" + ToUri(path)
  }

  /** `EncodeAppend` for `a`, given it for the tail of `a`. */
  lemma EncodeAppendStep(a: seq<Byte>, b: seq<Byte>, cs: Charset, padded: bool)
    requires |a| > 0
    requires Encode(a[1..] + b, cs, padded) == Encode(a[1..], cs, padded) + Encode(b, cs, padded)
    ensures Encode(a + b, cs, padded) == Encode(a, cs, padded) + Encode(b, cs, padded)
  {
    assert (a + b)[0] == a[0] && (a + b)[1..] == a[1..] + b;
    EncodeHead(a + b, cs, padded);
    EncodeHead(a, cs, padded);
    AppendAssoc(Escape(cs, a[0], padded), Encode(a[1..], cs, padded), Encode(b, cs, padded));
  }

  /** Encoding distributes over concatenation: each byte is encoded independently of its neighbours. */
  lemma {:induction false} EncodeAppend(a: seq<Byte>, b: seq<Byte>, cs: Charset, padded: bool)
    ensures Encode(a + b, cs, padded) == Encode(a, cs, padded) + Encode(b, cs, padded)
    decreases |a|
  {
    if |a| > 0 {
      EncodeAppend(a[1..], b, cs, padded);
      EncodeAppendStep(a, b, cs, padded);
    } else {
      assert a + b == b;
    }
  }

  /**
   * The byte at position `i` is encoded in place: copied if kept, otherwise
   * replaced by '%' and its hexadecimal numeral.
   */
  lemma EncodeAt(s: seq<Byte>, i: nat, cs: Charset, padded: bool)
    requires i < |s|
    ensures Encode(s, cs, padded) == Encode(s[..i], cs, padded) + Escape(cs, s[i], padded) + Encode(s[i + 1..], cs, padded)
  {
    var t := s[i..];
    assert s == s[..i] + t;
    EncodeAppend(s[..i], t, cs, padded);
    assert t[0] == s[i] && t[1..] == s[i + 1..];
    EncodeHead(t, cs, padded);
    AppendAssoc(Encode(s[..i], cs, padded), Escape(cs, s[i], padded), Encode(s[i + 1..], cs, padded));
  }

  /** A decodable escape at position `i`: '%' followed by two hexadecimal digits. */
  predicate EscapeAt(s: seq<Byte>, i: int)
  {
    0 <= i && i + 2 < |s| && s[i] == '%' && IsHexDigit(s[i + 1]) && IsHexDigit(s[i + 2])
  }

  /**
   * `File::fromUriPath`: every '%' followed by two hexadecimal digits of
   * either case becomes the byte they denote; every other byte, including a
   * '%' without two digits after it, is copied.
   */
  function FromUriPath(s: seq<Byte>): (r: seq<Byte>)
    ensures |r| <= |s|
    decreases |s|
  {
    if |s| == 0 then []
    else if EscapeAt(s, 0) then
      [ByteOf(16 * HexValue(s[1]) + HexValue(s[2]))] + FromUriPath(s[3..])
    else
      [s[0]] + FromUriPath(s[1..])
  }

  /** A string without '%' is returned unchanged. */
  lemma {:induction false} DecodeWithoutPercent(s: seq<Byte>)
    requires forall i :: 0 <= i < |s| ==> s[i] != '%'
    ensures FromUriPath(s) == s
    decreases |s|
  {
    if |s| > 0 {
      assert forall i :: 0 <= i < |s[1..]| ==> s[1..][i] == s[i + 1];
      DecodeWithoutPercent(s[1..]);
    }
  }

  /** The decoder shortens its input exactly when the input holds a decodable escape. */
  lemma {:induction false} DecodeShrinksIffEscape(s: seq<Byte>)
    ensures |FromUriPath(s)| < |s| <==> exists i :: EscapeAt(s, i)
    decreases |s|
  {
    if |s| > 0 && !EscapeAt(s, 0) {
      DecodeShrinksIffEscape(s[1..]);
      if exists i :: EscapeAt(s, i) {
        var i :| EscapeAt(s, i);
        assert EscapeAt(s[1..], i - 1);
      }
      if exists i :: EscapeAt(s[1..], i) {
        var i :| EscapeAt(s[1..], i);
        assert EscapeAt(s, i + 1);
      }
    }
  }

  /** `DecodeAppend` when `a` starts with a decodable escape. */
  lemma DecodeAppendEscape(a: seq<Byte>, b: seq<Byte>)
    requires EscapeAt(a, 0)
    requires FromUriPath(a[3..] + b) == FromUriPath(a[3..]) + FromUriPath(b)
    ensures FromUriPath(a + b) == FromUriPath(a) + FromUriPath(b)
  {
    DecodeEscapeAppendHead(a, b);
    AppendAssoc([ByteOf(16 * HexValue(a[1]) + HexValue(a[2]))], FromUriPath(a[3..]), FromUriPath(b));
  }

  /** An escape that starts `a` also starts `a + b` and is decoded the same way. */
  lemma DecodeEscapeAppendHead(a: seq<Byte>, b: seq<Byte>)
    requires EscapeAt(a, 0)
    ensures FromUriPath(a + b) == [ByteOf(16 * HexValue(a[1]) + HexValue(a[2]))] + FromUriPath(a[3..] + b)
  {
    var ab := a + b;
    assert ab[0] == a[0] && ab[1] == a[1] && ab[2] == a[2];
    assert ab[3..] == a[3..] + b;
  }

  /** `DecodeAppend` when the first byte of `a` is copied. */
  lemma DecodeAppendCopy(a: seq<Byte>, b: seq<Byte>)
    requires |a| > 0 && !EscapeAt(a, 0)
    requires b == [] || !IsHexDigit(b[0])
    requires FromUriPath(a[1..] + b) == FromUriPath(a[1..]) + FromUriPath(b)
    ensures FromUriPath(a + b) == FromUriPath(a) + FromUriPath(b)
  {
    DecodeCopyAppendHead(a, b);
    DecodeCopyHead(a);
    AppendAssoc([a[0]], FromUriPath(a[1..]), FromUriPath(b));
  }

  /** When no escape starts `a`, none starts `a + b`, and the first byte is copied. */
  lemma DecodeCopyAppendHead(a: seq<Byte>, b: seq<Byte>)
    requires |a| > 0 && !EscapeAt(a, 0)
    requires b == [] || !IsHexDigit(b[0])
    ensures FromUriPath(a + b) == [a[0]] + FromUriPath(a[1..] + b)
  {
    NoEscapeAcross(a, b);
    assert (a + b)[1..] == a[1..] + b;
    DecodeCopyHead(a + b);
  }

  /** An escape that does not start `a` does not start `a + b` when `b` starts with no digit. */
  lemma NoEscapeAcross(a: seq<Byte>, b: seq<Byte>)
    requires |a| > 0 && !EscapeAt(a, 0)
    requires b == [] || !IsHexDigit(b[0])
    ensures !EscapeAt(a + b, 0)
  {
    var ab := a + b;
    if |a| <= 2 && |ab| > 2 {
      assert ab[|a|] == b[0];
    } else if |a| > 2 {
      assert ab[1] == a[1] && ab[2] == a[2];
    }
  }

  /** The decoder copies the first byte when no escape starts there. */
  lemma DecodeCopyHead(s: seq<Byte>)
    requires |s| > 0 && !EscapeAt(s, 0)
    ensures FromUriPath(s) == [s[0]] + FromUriPath(s[1..])
  {
  }

  /**
   * Decoding can be split before any byte that is not a hexadecimal digit:
   * no escape reaches across such a byte.
   */
  lemma {:induction false} DecodeAppend(a: seq<Byte>, b: seq<Byte>)
    requires b == [] || !IsHexDigit(b[0])
    ensures FromUriPath(a + b) == FromUriPath(a) + FromUriPath(b)
    decreases |a|
  {
    if |a| == 0 {
      assert a + b == b && FromUriPath(a) == [];
    } else if EscapeAt(a, 0) {
      DecodeAppend(a[3..], b);
      DecodeAppendEscape(a, b);
    } else {
      DecodeAppend(a[1..], b);
      DecodeAppendCopy(a, b);
    }
  }

  /** A '%' not followed by two hexadecimal digits is copied, wherever it stands. */
  lemma LonePercentIsCopied(a: seq<Byte>, b: seq<Byte>)
    requires !(|b| >= 2 && IsHexDigit(b[0]) && IsHexDigit(b[1]))
    ensures FromUriPath(a + ['%'] + b) == FromUriPath(a) + ['%'] + FromUriPath(b)
  {
    assert a + ['%'] + b == a + (['%'] + b);
    DecodeAppend(a, ['%'] + b);
    assert !EscapeAt(['%'] + b, 0);
    assert (['%'] + b)[1..] == b;
  }
}
