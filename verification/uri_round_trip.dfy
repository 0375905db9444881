/**
 * What `File::fromUriPath` makes of the output of `File::toUri` and
 * `File::toUriPath` (utility/file_utility.cpp).
 *
 * The encoders print an escaped byte with `hex << uppercase` and no zero
 * padding, so a byte below 0x10 becomes '%' and ONE digit instead of the
 * two digits of section 2.1 of RFC 3986. The decoder only decodes a '%' with
 * two digits after it, so such an escape is either copied as text or glued to
 * the next character. This module proves that decoding gives the input back
 * exactly when no byte is below 0x10, and that with two-digit escapes
 * (`ToUriPathPadded`, `ToUriPadded`) it always does.
 */
module UriRoundTrip {
  import opened Chars
  import opened UriEncoding

  /** A byte whose hexadecimal numeral has one digit. */
  predicate IsLow(c: Byte)
  {
    c as int < 16
  }

  /** No byte of `s` has a one-digit numeral. */
  predicate NoLowByte(s: seq<Byte>)
  {
    forall i :: 0 <= i < |s| ==> !IsLow(s[i])
  }

  /** Bytes below 0x10 are control characters, which neither encoder keeps. */
  lemma LowBytesAreEscaped(cs: Charset, c: Byte)
    requires IsLow(c)
    ensures !Kept(cs, c)
  {
  }

  /** The byte that a one-digit numeral `c` and a following hexadecimal digit `d` denote together. */
  function Glue(c: Byte, d: Byte): Byte
    requires IsLow(c) && IsHexDigit(d)
  {
    ByteOf(16 * (c as int) + HexValue(d))
  }

  /**
   * The decoder's reading of the unpadded encoding of `s`, described byte by
   * byte over `s`: a byte below 0x10 is glued to a following hexadecimal
   * digit into one byte, or else comes back as the text '%' and its digit;
   * every other byte comes back as itself.
   */
  function Reread(s: seq<Byte>): seq<Byte>
    decreases |s|
  {
    if |s| == 0 then []
    else if !IsLow(s[0]) then [s[0]] + Reread(s[1..])
    else if |s| >= 2 && IsHexDigit(s[1]) then [Glue(s[0], s[1])] + Reread(s[2..])
    else ['%'] + HexField(s[0], false) + Reread(s[1..])
  }

  lemma RereadGluedHead(s: seq<Byte>)
    requires |s| >= 2 && IsLow(s[0]) && IsHexDigit(s[1])
    ensures Reread(s) == [Glue(s[0], s[1])] + Reread(s[2..])
  {
  }

  lemma RereadLoneHead(s: seq<Byte>)
    requires |s| > 0 && IsLow(s[0]) && !(|s| >= 2 && IsHexDigit(s[1]))
    ensures Reread(s) == ['%'] + HexField(s[0], false) + Reread(s[1..])
  {
  }

  /** The decoder copies a byte other than '%'. */
  lemma DecodeLiteral(c: Byte, t: seq<Byte>)
    requires c != '%'
    ensures FromUriPath([c] + t) == [c] + FromUriPath(t)
  {
    assert ([c] + t)[1..] == t;
  }

  /** The decoder turns '%' and a two-digit numeral back into the byte. */
  lemma DecodeTwoDigits(c: Byte, t: seq<Byte>)
    ensures FromUriPath(['%'] + HexField(c, true) + t) == [c] + FromUriPath(t)
  {
    var h := HexField(c, true);
    var u := ['%'] + h + t;
    assert u[1] == h[0] && u[2] == h[1];
    assert EscapeAt(u, 0);
    assert u[3..] == t;
    assert HexNumeral(h) == 16 * HexValue(h[0]) + HexValue(h[1]) by {
      assert h[..1] == [h[0]];
      assert h[..1][..0] == [];
    }
  }

  /** A one-digit numeral and a following hexadecimal digit are read as one byte. */
  lemma DecodeGlued(c: Byte, d: Byte, t: seq<Byte>)
    requires IsLow(c) && IsHexDigit(d)
    ensures FromUriPath(['%'] + HexField(c, false) + [d] + t) == [Glue(c, d)] + FromUriPath(t)
  {
    var h := HexField(c, false);
    assert HexValue(h[0]) == c as int by {
      assert h[..0] == [];
    }
    var u := ['%'] + h + [d] + t;
    assert u[1] == h[0] && u[2] == d;
    assert EscapeAt(u, 0);
    assert u[3..] == t;
  }

  /** A one-digit numeral not followed by a hexadecimal digit is copied as text. */
  lemma DecodeLone(c: Byte, t: seq<Byte>)
    requires IsLow(c)
    requires t == [] || !IsHexDigit(t[0])
    ensures FromUriPath(['%'] + HexField(c, false) + t) == ['%'] + HexField(c, false) + FromUriPath(t)
  {
    var x := HexDigit(c as int);
    assert HexField(c, false) == [x];
    var u := ['%'] + [x] + t;
    assert !EscapeAt(u, 0) by {
      if |u| > 2 {
        assert u[2] == t[0];
      }
    }
    assert u[1..] == [x] + t;
    DecodeLiteral(x, t);
  }

  /** `DecodeEncodeIsReread` for a string whose first byte is 0x10 or above. */
  lemma RereadStepExact(s: seq<Byte>, cs: Charset)
    requires |s| > 0 && !IsLow(s[0])
    requires FromUriPath(Encode(s[1..], cs, false)) == Reread(s[1..])
    ensures FromUriPath(Encode(s, cs, false)) == Reread(s)
  {
    var c, t := s[0], Encode(s[1..], cs, false);
    EncodeHead(s, cs, false);
    if Kept(cs, c) {
      DecodeLiteral(c, t);
    } else {
      assert HexField(c, false) == HexField(c, true);
      DecodeTwoDigits(c, t);
    }
  }

  /** `DecodeEncodeIsReread` for a low byte glued to the hexadecimal digit after it. */
  lemma RereadStepGlued(s: seq<Byte>, cs: Charset)
    requires |s| >= 2 && IsLow(s[0]) && IsHexDigit(s[1])
    requires FromUriPath(Encode(s[2..], cs, false)) == Reread(s[2..])
    ensures FromUriPath(Encode(s, cs, false)) == Reread(s)
  {
    var c, t, t' := s[0], Encode(s[1..], cs, false), Encode(s[2..], cs, false);
    LowBytesAreEscaped(cs, c);
    EncodeHead(s, cs, false);
    EncodeHead(s[1..], cs, false);
    assert s[1..][0] == s[1] && s[1..][1..] == s[2..];
    assert t == [s[1]] + t';
    assert Encode(s, cs, false) == ['%'] + HexField(c, false) + [s[1]] + t';
    DecodeGlued(c, s[1], t');
    RereadGluedHead(s);
  }

  /** `DecodeEncodeIsReread` for a low byte copied back as text. */
  lemma RereadStepLone(s: seq<Byte>, cs: Charset)
    requires |s| > 0 && IsLow(s[0]) && !(|s| >= 2 && IsHexDigit(s[1]))
    requires FromUriPath(Encode(s[1..], cs, false)) == Reread(s[1..])
    ensures FromUriPath(Encode(s, cs, false)) == Reread(s)
  {
    var c, t := s[0], Encode(s[1..], cs, false);
    LowBytesAreEscaped(cs, c);
    EncodeHead(s, cs, false);
    assert t == [] || !IsHexDigit(t[0]) by {
      if |s| >= 2 {
        assert s[1..][0] == s[1];
        EncodeHead(s[1..], cs, false);
      }
    }
    DecodeLone(c, t);
    RereadLoneHead(s);
  }

  /** Decoding the unpadded encoding is `Reread`, whichever characters the encoder keeps. */
  lemma {:induction false} DecodeEncodeIsReread(s: seq<Byte>, cs: Charset)
    ensures FromUriPath(Encode(s, cs, false)) == Reread(s)
    decreases |s|
  {
    if |s| == 0 {
    } else if !IsLow(s[0]) {
      DecodeEncodeIsReread(s[1..], cs);
      RereadStepExact(s, cs);
    } else if |s| >= 2 && IsHexDigit(s[1]) {
      DecodeEncodeIsReread(s[2..], cs);
      RereadStepGlued(s, cs);
    } else {
      DecodeEncodeIsReread(s[1..], cs);
      RereadStepLone(s, cs);
    }
  }

  /** Without low bytes, `Reread` gives the string back. */
  lemma {:induction false} RereadExact(s: seq<Byte>)
    requires NoLowByte(s)
    ensures Reread(s) == s
    decreases |s|
  {
    if |s| > 0 {
      assert NoLowByte(s[1..]) by {
        forall i | 0 <= i < |s[1..]|
          ensures !IsLow(s[1..][i])
        {
          assert s[1..][i] == s[i + 1];
        }
      }
      RereadExact(s[1..]);
    }
  }

  /** What `Reread` makes of a first byte that is not glued to the next one. */
  function RereadByte(c: Byte): seq<Byte>
  {
    if IsLow(c) then ['%'] + HexField(c, false) else [c]
  }

  lemma RereadSingleHead(s: seq<Byte>)
    requires |s| > 0 && !(IsLow(s[0]) && |s| >= 2 && IsHexDigit(s[1]))
    ensures Reread(s) == RereadByte(s[0]) + Reread(s[1..])
  {
  }

  /** Gluing at the front of `a` is not disturbed by appending `b`. */
  lemma RereadGluedAppendHead(a: seq<Byte>, b: seq<Byte>)
    requires |a| >= 2 && IsLow(a[0]) && IsHexDigit(a[1])
    ensures Reread(a + b) == [Glue(a[0], a[1])] + Reread(a[2..] + b)
  {
    var ab := a + b;
    assert ab[0] == a[0] && ab[1] == a[1] && ab[2..] == a[2..] + b;
    RereadGluedHead(ab);
  }

  /** A first byte of `a` that is not glued stays unglued in `a + b` when `b` starts with no digit. */
  lemma RereadSingleAppendHead(a: seq<Byte>, b: seq<Byte>)
    requires |a| > 0 && !(IsLow(a[0]) && |a| >= 2 && IsHexDigit(a[1]))
    requires b == [] || !IsHexDigit(b[0])
    ensures Reread(a + b) == RereadByte(a[0]) + Reread(a[1..] + b)
  {
    NoGlueAcross(a, b);
    assert (a + b)[0] == a[0] && (a + b)[1..] == a[1..] + b;
    RereadSingleHead(a + b);
  }

  /** A first byte of `a` that is not glued is not glued in `a + b` either, when `b` starts with no digit. */
  lemma NoGlueAcross(a: seq<Byte>, b: seq<Byte>)
    requires |a| > 0 && !(IsLow(a[0]) && |a| >= 2 && IsHexDigit(a[1]))
    requires b == [] || !IsHexDigit(b[0])
    ensures !(IsLow((a + b)[0]) && |a + b| >= 2 && IsHexDigit((a + b)[1]))
  {
    var ab := a + b;
    if |a| >= 2 {
      assert ab[0] == a[0] && ab[1] == a[1];
    } else if |ab| >= 2 {
      assert ab[1] == b[0];
    }
  }

  /** `RereadAppend` when `a` starts with a glued pair. */
  lemma RereadAppendGlued(a: seq<Byte>, b: seq<Byte>)
    requires |a| >= 2 && IsLow(a[0]) && IsHexDigit(a[1])
    requires Reread(a[2..] + b) == Reread(a[2..]) + Reread(b)
    ensures Reread(a + b) == Reread(a) + Reread(b)
  {
    RereadGluedAppendHead(a, b);
    RereadGluedHead(a);
    AppendAssoc([Glue(a[0], a[1])], Reread(a[2..]), Reread(b));
  }

  /** `RereadAppend` when the first byte of `a` is not glued. */
  lemma RereadAppendSingle(a: seq<Byte>, b: seq<Byte>)
    requires |a| > 0 && !(IsLow(a[0]) && |a| >= 2 && IsHexDigit(a[1]))
    requires b == [] || !IsHexDigit(b[0])
    requires Reread(a[1..] + b) == Reread(a[1..]) + Reread(b)
    ensures Reread(a + b) == Reread(a) + Reread(b)
  {
    RereadSingleAppendHead(a, b);
    RereadSingleHead(a);
    AppendAssoc(RereadByte(a[0]), Reread(a[1..]), Reread(b));
  }

  /** `Reread` can be split before any byte that is not a hexadecimal digit. */
  lemma {:induction false} RereadAppend(a: seq<Byte>, b: seq<Byte>)
    requires b == [] || !IsHexDigit(b[0])
    ensures Reread(a + b) == Reread(a) + Reread(b)
    decreases |a|
  {
    if |a| == 0 {
      assert a + b == b && Reread(a) == [];
    } else if IsLow(a[0]) && |a| >= 2 && IsHexDigit(a[1]) {
      RereadAppend(a[2..], b);
      RereadAppendGlued(a, b);
    } else {
      RereadAppend(a[1..], b);
      RereadAppendSingle(a, b);
    }
  }

  /** The number of low bytes in `s`. */
  function LowCount(s: seq<Byte>): nat
    decreases |s|
  {
    if |s| == 0 then 0
    else (if IsLow(s[0]) then 1 else 0) + LowCount(s[1..])
  }

  lemma {:induction false} LowCountAppend(a: seq<Byte>, b: seq<Byte>)
    ensures LowCount(a + b) == LowCount(a) + LowCount(b)
    decreases |a|
  {
    if |a| == 0 {
      assert a + b == b && LowCount(a) == 0;
    } else {
      assert (a + b)[0] == a[0];
      assert (a + b)[1..] == a[1..] + b;
      LowCountAppend(a[1..], b);
    }
  }

  /**
   * `Reread` never produces more low bytes than it started from: a low byte
   * comes back as one byte, or as '%' and a digit, neither of them low.
   */
  lemma {:induction false} RereadLowCount(s: seq<Byte>)
    ensures LowCount(Reread(s)) <= LowCount(s)
    decreases |s|
  {
    if |s| == 0 {
    } else if !IsLow(s[0]) {
      RereadLowCount(s[1..]);
      LowCountAppend([s[0]], Reread(s[1..]));
    } else if |s| >= 2 && IsHexDigit(s[1]) {
      RereadLowCount(s[2..]);
      RereadGluedHead(s);
      LowCountAppend([Glue(s[0], s[1])], Reread(s[2..]));
      assert s[1..][0] == s[1] && s[1..][1..] == s[2..];
      assert LowCount(s) == 1 + LowCount(s[2..]);
    } else {
      RereadLowCount(s[1..]);
      var h := HexField(s[0], false);
      RereadLoneHead(s);
      LowCountAppend(['%'] + h, Reread(s[1..]));
      assert LowCount(['%'] + h) == 0 by {
        assert (['%'] + h)[1..] == h;
        assert h[1..] == [];
      }
    }
  }

  /** The last low byte of `s`. */
  lemma {:induction false} LastLowByte(s: seq<Byte>) returns (k: nat)
    requires !NoLowByte(s)
    ensures k < |s| && IsLow(s[k]) && NoLowByte(s[k + 1..])
    decreases |s|
  {
    var n := |s| - 1;
    if IsLow(s[n]) {
      k := n;
    } else {
      var i :| 0 <= i < |s| && IsLow(s[i]);
      assert s[..n][i] == s[i];
      k := LastLowByte(s[..n]);
      assert s[..n][k] == s[k];
      assert s[..n][k + 1..] == s[k + 1..n];
      forall j | k + 1 <= j < |s|
        ensures !IsLow(s[j])
      {
        if j < n {
          assert s[j] == s[..n][k + 1..][j - k - 1];
        }
      }
    }
  }

  /**
   * A last low byte glued to the digit after it: `Reread` turns the two into
   * one byte, so the part before them would have to gain a low byte.
   */
  lemma GluedTailBreaks(a: seq<Byte>, b: seq<Byte>)
    requires |b| >= 2 && IsLow(b[0]) && IsHexDigit(b[1]) && NoLowByte(b[2..])
    ensures Reread(a) + Reread(b) != a + b
  {
    RereadExact(b[2..]);
    RereadGluedHead(b);
    var r := Reread(a) + Reread(b);
    if |r| == |a + b| {
      assert r[..|a| + 1] == Reread(a);
      assert (a + b)[..|a| + 1] == a + [b[0]];
      LowCountAppend(a, [b[0]]);
      RereadLowCount(a);
      assert LowCount([b[0]]) == 1;
    }
  }

  /** A last low byte copied back as text: its position then holds the digit, which is not low. */
  lemma LoneTailBreaks(a: seq<Byte>, b: seq<Byte>)
    requires |b| > 0 && IsLow(b[0]) && !(|b| >= 2 && IsHexDigit(b[1])) && NoLowByte(b[1..])
    ensures Reread(a) + Reread(b) != a + b
  {
    RereadExact(b[1..]);
    RereadLoneHead(b);
    var h := HexField(b[0], false);
    var r := Reread(a) + Reread(b);
    if |r| == |a + b| {
      assert r[|a|] == h[0];
      assert !IsLow(h[0]);
    }
  }

  /** A low byte anywhere makes `Reread` differ from the string. */
  lemma LowByteBreaksReread(s: seq<Byte>)
    requires !NoLowByte(s)
    ensures Reread(s) != s
  {
    var k := LastLowByte(s);
    var a, b := s[..k], s[k..];
    assert s == a + b;
    assert b[0] == s[k] && b[1..] == s[k + 1..];
    RereadAppend(a, b);
    if |b| >= 2 && IsHexDigit(b[1]) {
      assert NoLowByte(b[2..]) by {
        assert forall j :: 0 <= j < |b[2..]| ==> b[2..][j] == b[1..][j + 1];
      }
      GluedTailBreaks(a, b);
    } else {
      LoneTailBreaks(a, b);
    }
  }

  /**
   * Decoding the unpadded encoding gives the string back if and only if no
   * byte of it is below 0x10, for either set of kept characters.
   */
  lemma UnpaddedRoundTrip(s: seq<Byte>, cs: Charset)
    ensures FromUriPath(Encode(s, cs, false)) == s <==> NoLowByte(s)
  {
    DecodeEncodeIsReread(s, cs);
    if NoLowByte(s) {
      RereadExact(s);
    } else {
      LowByteBreaksReread(s);
    }
  }

  /** `File::toUriPath` followed by `File::fromUriPath` is the identity exactly on strings with no byte below 0x10. */
  lemma ToUriPathRoundTrip(s: seq<Byte>)
    ensures FromUriPath(ToUriPath(s)) == s <==> forall i :: 0 <= i < |s| ==> s[i] as int >= 0x10
  {
    UnpaddedRoundTrip(s, UriPath);
  }

  /** `File::toUri` followed by `File::fromUriPath` is the identity exactly on strings with no byte below 0x10. */
  lemma ToUriRoundTrip(s: seq<Byte>)
    ensures FromUriPath(ToUri(s)) == s <==> forall i :: 0 <= i < |s| ==> s[i] as int >= 0x10
  {
    UnpaddedRoundTrip(s, Rfc2396);
  }

  /** The path part of a `file://` URL decodes back to the path iff no byte of the path is below 0x10. */
  lemma FullPathUrlRoundTrip(path: seq<Byte>)
    ensures FromUriPath(FullPathUrl(path)[7..]) == path <==> forall i :: 0 <= i < |path| ==> path[i] as int >= 0x10
  {
    ToUriRoundTrip(path);
  }

  /** A line feed followed by '1' is encoded as "%A1", which the decoder reads as the single byte 0xA1. */
  lemma UnpaddedGluesNextDigit()
    ensures ToUriPath("\n1") == "%A1" && FromUriPath("%A1") == ['\U{A1}']
  {
    assert ToUriPath("\n1") == Escape(UriPath, '\n', false) + Encode("1", UriPath, false);
    assert EscapeAt("%A1", 0);
    assert "%A1"[3..] == [];
  }

  /** A line feed alone is encoded as "%A", which the decoder leaves as the text "%A". */
  lemma UnpaddedLeavesText()
    ensures ToUriPath("\n") == "%A" && FromUriPath("%A") == "%A"
  {
    assert ToUriPath("\n") == Escape(UriPath, '\n', false) + Encode([], UriPath, false);
    assert "%A"[1..] == "A" && "A"[1..] == [];
  }

  /** With two-digit escapes, decoding always gives the string back. */
  lemma {:induction false} PaddedRoundTrip(s: seq<Byte>, cs: Charset)
    ensures FromUriPath(Encode(s, cs, true)) == s
    decreases |s|
  {
    if |s| > 0 {
      var c := s[0];
      var t := Encode(s[1..], cs, true);
      EncodeHead(s, cs, true);
      if Kept(cs, c) {
        DecodeLiteral(c, t);
      } else {
        DecodeTwoDigits(c, t);
      }
      PaddedRoundTrip(s[1..], cs);
    }
  }

  /** `File::toUriPath` with two-digit escapes: `File::fromUriPath` inverts it on every string. */
  function ToUriPathPadded(path: seq<Byte>): (r: seq<Byte>)
    ensures FromUriPath(r) == path
    ensures KeptOrPercent(UriPath, r)
  {
    PaddedRoundTrip(path, UriPath);
    EncodeAlphabet(path, UriPath, true);
    Encode(path, UriPath, true)
  }

  /** `File::toUri` with two-digit escapes: `File::fromUriPath` inverts it on every string. */
  function ToUriPadded(path: seq<Byte>): (r: seq<Byte>)
    ensures FromUriPath(r) == path
    ensures KeptOrPercent(Rfc2396, r)
  {
    PaddedRoundTrip(path, Rfc2396);
    EncodeAlphabet(path, Rfc2396, true);
    Encode(path, Rfc2396, true)
  }
}
