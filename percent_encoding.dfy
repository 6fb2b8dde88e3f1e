/**
 * Percent-decoding as section 2.1 of RFC 3986 defines percent-encoding:
 * a "%" followed by two hexadecimal digits stands for the octet they spell.
 *
 * `RemovingPercentEncoding` is Foundation's `String.removingPercentEncoding`:
 * the string is taken as its UTF-8 bytes, every escape is replaced by its
 * octet, and the resulting bytes must again be well-formed UTF-8. A "%" that
 * does not start a complete escape, or bytes that are not UTF-8, make the
 * whole decoding fail (Foundation returns nil).
 */
module PercentEncoding {
  import opened Common
  import Utf8

  const Percent: byte := 0x25

  predicate IsHexDigit(b: byte)
  {
    (0x30 <= b <= 0x39) || (0x41 <= b <= 0x46) || (0x61 <= b <= 0x66)
  }

  function HexValue(b: byte): (v: int)
    requires IsHexDigit(b)
    ensures 0 <= v < 16
  {
    if b <= 0x39 then b - 0x30 else if b <= 0x46 then b - 0x41 + 10 else b - 0x61 + 10
  }

  /** The upper-case hexadecimal digit for v, as an octet. */
  function HexDigit(v: int): (b: byte)
    requires 0 <= v < 16
    ensures IsHexDigit(b) && HexValue(b) == v
  {
    if v < 10 then 0x30 + v else 0x41 + v - 10
  }

  /** True when the octet at i is a "%" that is not followed by two hexadecimal digits. */
  predicate MalformedAt(b: seq<byte>, i: int)
    requires 0 <= i < |b|
  {
    b[i] == Percent && !(i + 2 < |b| && IsHexDigit(b[i + 1]) && IsHexDigit(b[i + 2]))
  }

  predicate HasMalformedEscape(b: seq<byte>)
  {
    exists i :: 0 <= i < |b| && MalformedAt(b, i)
  }

  /** Replaces every escape in b by its octet, or None at the first "%" that starts no escape. */
  function Unescape(b: seq<byte>): (r: Option<seq<byte>>)
    ensures r.Some? ==> |r.value| <= |b|
    decreases |b|
  {
    if b == [] then Some([])
    else if b[0] == Percent then
      if |b| >= 3 && IsHexDigit(b[1]) && IsHexDigit(b[2]) then
        match Unescape(b[3..])
        case None => None
        case Some(rest) => Some([HexValue(b[1]) * 16 + HexValue(b[2])] + rest)
      else None
    else
      match Unescape(b[1..])
      case None => None
      case Some(rest) => Some([b[0]] + rest)
  }

  /** The percent-encoding of every octet of b: the inverse of Unescape. */
  function EscapeAll(b: seq<byte>): (e: seq<byte>)
    ensures |e| == 3 * |b|
  {
    if b == [] then [] else [Percent, HexDigit(b[0] / 16), HexDigit(b[0] % 16)] + EscapeAll(b[1..])
  }

  /** Foundation's `removingPercentEncoding`. */
  function RemovingPercentEncoding(s: string): Option<string>
  {
    match Unescape(Utf8.Encode(s))
    case None => None
    case Some(bytes) => Utf8.Decode(bytes)
  }

  /** Bytes with no "%" are left as they are. */
  lemma {:induction false} UnescapeWithoutPercent(b: seq<byte>)
    requires Percent !in b
    ensures Unescape(b) == Some(b)
  {
    if b != [] {
      UnescapeWithoutPercent(b[1..]);
      assert [b[0]] + b[1..] == b;
    }
  }

  /** Unescaping fails exactly when some "%" is not followed by two hexadecimal digits. */
  lemma {:induction false} UnescapeFailsIffMalformed(b: seq<byte>)
    ensures Unescape(b).None? <==> HasMalformedEscape(b)
    decreases |b|
  {
    if b == [] {
    } else if b[0] == Percent {
      if |b| >= 3 && IsHexDigit(b[1]) && IsHexDigit(b[2]) {
        UnescapeFailsIffMalformed(b[3..]);
        if HasMalformedEscape(b[3..]) {
          var i :| 0 <= i < |b[3..]| && MalformedAt(b[3..], i);
          assert MalformedAt(b, i + 3);
        }
        if HasMalformedEscape(b) {
          var i :| 0 <= i < |b| && MalformedAt(b, i);
          assert i >= 3;
          assert MalformedAt(b[3..], i - 3);
        }
      } else {
        assert MalformedAt(b, 0);
      }
    } else {
      UnescapeFailsIffMalformed(b[1..]);
      if HasMalformedEscape(b[1..]) {
        var i :| 0 <= i < |b[1..]| && MalformedAt(b[1..], i);
        assert MalformedAt(b, i + 1);
      }
      if HasMalformedEscape(b) {
        var i :| 0 <= i < |b| && MalformedAt(b, i);
        assert i >= 1;
        assert MalformedAt(b[1..], i - 1);
      }
    }
  }

  /** Unescaping undoes escaping. */
  lemma {:induction false} UnescapeEscapeAll(b: seq<byte>)
    ensures Unescape(EscapeAll(b)) == Some(b)
  {
    if b != [] {
      var e := EscapeAll(b);
      assert e[3..] == EscapeAll(b[1..]);
      UnescapeEscapeAll(b[1..]);
      assert [b[0]] + b[1..] == b;
    }
  }

  /** A string with no "%" decodes to itself. */
  lemma {:induction false} WithoutPercentIsUnchanged(s: string)
    requires '%' !in s
    ensures RemovingPercentEncoding(s) == Some(s)
  {
    Utf8.AsciiByteOccurs(s, '%');
    UnescapeWithoutPercent(Utf8.Encode(s));
    Utf8.RoundTrip(s);
  }

  /** Decoding fails when the UTF-8 form of s holds a "%" that starts no escape. */
  lemma {:induction false} MalformedEscapeFails(s: string)
    requires HasMalformedEscape(Utf8.Encode(s))
    ensures RemovingPercentEncoding(s) == None
  {
    UnescapeFailsIffMalformed(Utf8.Encode(s));
  }

  /** Percent-encoding every UTF-8 byte of a string and then decoding gives the string back. */
  lemma {:induction false} DecodesEscapedUtf8(s: string, escaped: string)
    requires Utf8.Encode(escaped) == EscapeAll(Utf8.Encode(s))
    ensures RemovingPercentEncoding(escaped) == Some(s)
  {
    UnescapeEscapeAll(Utf8.Encode(s));
    Utf8.RoundTrip(s);
  }
}
