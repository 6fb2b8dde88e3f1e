/**
 * Base64 as section 4 of RFC 4648 defines it (the standard alphabet, "="
 * padding), in the two forms the plugin meets:
 *  - `AndroidEncode`: what Android's `Base64.encodeToString(data, Base64.DEFAULT)`
 *    produces, the RFC 4648 text cut into lines of at most 76 characters,
 *    each line ended by a line feed;
 *  - `ForgivingDecode`: the "forgiving-base64 decode" of the WHATWG Infra
 *    standard, which `atob` runs: ASCII whitespace is dropped, one or two
 *    trailing "=" are dropped when the length is a multiple of four, a length
 *    of the form 4k+1 or a character outside the alphabet is a failure, and
 *    leftover bits of a final partial group are discarded.
 */
module Base64 {
  import opened Common

  /** Lines of Android's default encoding hold at most this many characters. */
  const LineLength: nat := 76

  predicate IsBase64Char(c: char)
  {
    ('A' <= c <= 'Z') || ('a' <= c <= 'z') || ('0' <= c <= '9') || c == '+' || c == '/'
  }

  predicate AllBase64Chars(s: string)
  {
    forall i :: 0 <= i < |s| ==> IsBase64Char(s[i])
  }

  /** The character of the standard alphabet (A-Z, a-z, 0-9, "+", "/") for a six-bit value. */
  function IndexChar(i: int): (c: char)
    requires 0 <= i < 64
    ensures IsBase64Char(c)
  {
    if i < 26 then ('A' as int + i) as char
    else if i < 52 then ('a' as int + i - 26) as char
    else if i < 62 then ('0' as int + i - 52) as char
    else if i == 62 then '+'
    else '/'
  }

  /** The six-bit value of an alphabet character. */
  function CharIndex(c: char): (i: int)
    requires IsBase64Char(c)
    ensures 0 <= i < 64 && IndexChar(i) == c
  {
    if 'A' <= c <= 'Z' then c as int - 'A' as int
    else if 'a' <= c <= 'z' then c as int - 'a' as int + 26
    else if '0' <= c <= '9' then c as int - '0' as int + 52
    else if c == '+' then 62
    else 63
  }

  lemma CharIndexOfIndexChar(i: int)
    requires 0 <= i < 64
    ensures CharIndex(IndexChar(i)) == i
  {
  }

  /** The four characters for three bytes: their 24 bits, six at a time. */
  function EncodeGroup(b0: byte, b1: byte, b2: byte): (s: string)
    ensures |s| == 4 && AllBase64Chars(s)
  {
    [IndexChar(b0 / 4), IndexChar((b0 % 4) * 16 + b1 / 16), IndexChar((b1 % 16) * 4 + b2 / 64), IndexChar(b2 % 64)]
  }

  /**
   * The encoding without its padding: a group per three bytes; a final one or
   * two bytes are filled with zero bits and give two or three characters.
   */
  function EncodeUnpadded(b: seq<byte>): (s: string)
    ensures DecodableLength(|s|) && AllBase64Chars(s)
    decreases |b|
  {
    if |b| == 0 then ""
    else if |b| == 1 then EncodeGroup(b[0], 0, 0)[..2]
    else if |b| == 2 then EncodeGroup(b[0], b[1], 0)[..3]
    else EncodeGroup(b[0], b[1], b[2]) + EncodeUnpadded(b[3..])
  }

  /** The "=" characters that fill the final group to four characters. */
  function Padding(b: seq<byte>): string
  {
    if |b| % 3 == 1 then "==" else if |b| % 3 == 2 then "=" else ""
  }

  /** RFC 4648, section 4. */
  function Encode(b: seq<byte>): string
  {
    EncodeUnpadded(b) + Padding(b)
  }

  /** Cuts s into lines of at most LineLength characters, each ended by a line feed. */
  function Wrap(s: string): (w: string)
    decreases |s|
  {
    if s == [] then []
    else if |s| <= LineLength then s + "\n"
    else s[..LineLength] + "\n" + Wrap(s[LineLength..])
  }

  /** Android's `Base64.encodeToString(data, Base64.DEFAULT)`. */
  function AndroidEncode(b: seq<byte>): string
  {
    Wrap(Encode(b))
  }

  predicate IsAsciiWhitespace(c: char)
  {
    c == '\t' || c == '\n' || c == '\U{000C}' || c == '\r' || c == ' '
  }

  function StripWhitespace(s: string): (t: string)
    ensures |t| <= |s|
  {
    if s == [] then []
    else if IsAsciiWhitespace(s[0]) then StripWhitespace(s[1..])
    else [s[0]] + StripWhitespace(s[1..])
  }

  /** Drops one or two trailing "=" from a string whose length is a multiple of four. */
  function StripPadding(s: string): string
  {
    if |s| % 4 == 0 && |s| >= 2 && s[|s| - 1] == '=' && s[|s| - 2] == '=' then s[..|s| - 2]
    else if |s| % 4 == 0 && |s| >= 1 && s[|s| - 1] == '=' then s[..|s| - 1]
    else s
  }

  /** The lengths 4k, 4k+2 and 4k+3 that a string of alphabet characters may have. */
  predicate DecodableLength(n: nat)
  {
    n == 0 || n == 2 || n == 3 || (n >= 4 && DecodableLength(n - 4))
  }

  lemma {:induction false} DecodableLengthMod(n: nat)
    ensures DecodableLength(n) <==> n % 4 != 1
  {
    if n >= 4 {
      DecodableLengthMod(n - 4);
    }
  }

  /** The three bytes spelled by four alphabet characters. */
  function DecodeQuad(s: string): (b: seq<byte>)
    requires |s| == 4 && AllBase64Chars(s)
    ensures |b| == 3
  {
    var c0, c1, c2, c3 := CharIndex(s[0]), CharIndex(s[1]), CharIndex(s[2]), CharIndex(s[3]);
    [c0 * 4 + c1 / 16, (c1 % 16) * 16 + c2 / 4, (c2 % 4) * 64 + c3]
  }

  /**
   * The bytes spelled by alphabet characters, four characters at a time; a
   * final two or three characters are filled with zero bits ("A") and give
   * one or two bytes, the spare bits being dropped.
   */
  function DecodeChars(s: string): (b: seq<byte>)
    requires AllBase64Chars(s) && DecodableLength(|s|)
    decreases |s|
  {
    if |s| == 0 then []
    else if |s| == 2 then DecodeQuad(s + "AA")[..1]
    else if |s| == 3 then DecodeQuad(s + "A")[..2]
    else DecodeQuad(s[..4]) + DecodeChars(s[4..])
  }

  /** The WHATWG forgiving-base64 decode; None is its failure. */
  function ForgivingDecode(s: string): Option<seq<byte>>
  {
    var t := StripPadding(StripWhitespace(s));
    if |t| % 4 == 1 || !AllBase64Chars(t) then None
    else
      DecodableLengthMod(|t|);
      Some(DecodeChars(t))
  }

  /** The arithmetic of one group: the four six-bit values of three bytes give the bytes back. */
  lemma {:induction false} DecodeGroup(b0: int, b1: int, b2: int)
    requires 0 <= b0 < 256 && 0 <= b1 < 256 && 0 <= b2 < 256
    ensures (b0 / 4) * 4 + ((b0 % 4) * 16 + b1 / 16) / 16 == b0
    ensures (((b0 % 4) * 16 + b1 / 16) % 16) * 16 + ((b1 % 16) * 4 + b2 / 64) / 4 == b1
    ensures (((b1 % 16) * 4 + b2 / 64) % 4) * 64 + b2 % 64 == b2
  {
    var x0, y0 := b0 / 4, b0 % 4;
    var x1, y1 := b1 / 16, b1 % 16;
    var x2, y2 := b2 / 64, b2 % 64;
    assert b0 == x0 * 4 + y0 && 0 <= y0 < 4 && 0 <= x1 < 16;
    assert b1 == x1 * 16 + y1 && 0 <= y1 < 16 && 0 <= x2 < 4;
    assert b2 == x2 * 64 + y2;
    var c1 := y0 * 16 + x1;
    assert c1 / 16 == y0 && c1 % 16 == x1;
    var c2 := y1 * 4 + x2;
    assert c2 / 4 == y1 && c2 % 4 == x2;
  }

  lemma {:induction false} QuadRoundTrip(b0: byte, b1: byte, b2: byte)
    ensures DecodeQuad(EncodeGroup(b0, b1, b2)) == [b0, b1, b2]
  {
    DecodeGroup(b0, b1, b2);
    CharIndexOfIndexChar(b0 / 4);
    CharIndexOfIndexChar((b0 % 4) * 16 + b1 / 16);
    CharIndexOfIndexChar((b1 % 16) * 4 + b2 / 64);
    CharIndexOfIndexChar(b2 % 64);
  }

  /** A final single byte: two characters, read back with two zero-bit characters added. */
  lemma {:induction false} TailOne(b0: byte)
    ensures DecodeChars(EncodeGroup(b0, 0, 0)[..2]) == [b0]
  {
    var g := EncodeGroup(b0, 0, 0);
    var s := g[..2];
    assert g[2] == 'A' && g[3] == 'A';
    assert s + "AA" == g;
    QuadRoundTrip(b0, 0, 0);
  }

  /** A final two bytes: three characters, read back with one zero-bit character added. */
  lemma {:induction false} TailTwo(b0: byte, b1: byte)
    ensures DecodeChars(EncodeGroup(b0, b1, 0)[..3]) == [b0, b1]
  {
    var g := EncodeGroup(b0, b1, 0);
    var s := g[..3];
    assert g[3] == 'A';
    assert s + "A" == g;
    QuadRoundTrip(b0, b1, 0);
  }

  /** A leading group of four characters is decoded on its own. */
  lemma {:induction false} DecodeCharsAppend(g: string, rest: string)
    requires |g| == 4 && AllBase64Chars(g) && AllBase64Chars(rest) && DecodableLength(|rest|)
    ensures AllBase64Chars(g + rest) && DecodableLength(|g + rest|)
    ensures DecodeChars(g + rest) == DecodeQuad(g) + DecodeChars(rest)
  {
    var s := g + rest;
    assert s[..4] == g && s[4..] == rest;
    assert forall i :: 0 <= i < |s| ==> s[i] == (if i < 4 then g[i] else rest[i - 4]);
  }

  lemma {:induction false} ShortRoundTrip(b: seq<byte>)
    requires 1 <= |b| <= 2
    ensures DecodeChars(EncodeUnpadded(b)) == b
  {
    if |b| == 1 {
      TailOne(b[0]);
      assert b == [b[0]];
    } else {
      TailTwo(b[0], b[1]);
      assert b == [b[0], b[1]];
    }
  }

  lemma {:induction false} GroupRoundTrip(b: seq<byte>)
    requires |b| >= 3
    ensures DecodeChars(EncodeUnpadded(b)) == b[..3] + DecodeChars(EncodeUnpadded(b[3..]))
  {
    var g := EncodeGroup(b[0], b[1], b[2]);
    DecodeCharsAppend(g, EncodeUnpadded(b[3..]));
    QuadRoundTrip(b[0], b[1], b[2]);
    assert b[..3] == [b[0], b[1], b[2]];
  }

  /** Decoding the characters of the unpadded encoding gives the bytes back. */
  lemma {:induction false} DecodeEncodeUnpadded(b: seq<byte>)
    ensures DecodeChars(EncodeUnpadded(b)) == b
    decreases |b|
  {
    if 1 <= |b| <= 2 {
      ShortRoundTrip(b);
    } else if |b| >= 3 {
      GroupRoundTrip(b);
      DecodeEncodeUnpadded(b[3..]);
      assert b == b[..3] + b[3..];
    }
  }

  lemma {:induction false} UnpaddedLength(b: seq<byte>)
    ensures |EncodeUnpadded(b)| == 4 * (|b| / 3) + (if |b| % 3 == 0 then 0 else |b| % 3 + 1)
    decreases |b|
  {
    if |b| >= 3 {
      UnpaddedLength(b[3..]);
    }
  }

  /** Three or more bytes: the first group's characters, then the encoding of the rest. */
  lemma {:induction false} EncodeCons(b: seq<byte>)
    requires |b| >= 3
    ensures Encode(b) == EncodeGroup(b[0], b[1], b[2]) + Encode(b[3..])
  {
    assert Padding(b) == Padding(b[3..]);
  }

  /** The RFC 4648 text is a whole number of four-character groups, one per started group of three bytes. */
  lemma {:induction false} EncodeLength(b: seq<byte>)
    ensures |Encode(b)| == 4 * ((|b| + 2) / 3)
    decreases |b|
  {
    if |b| >= 3 {
      EncodeCons(b);
      EncodeLength(b[3..]);
      assert (|b| - 3 + 2) / 3 + 1 == (|b| + 2) / 3;
    }
  }

  /** Dropping the padding the forgiving decoder drops leaves the unpadded encoding. */
  lemma {:induction false} StripPaddingOfEncode(b: seq<byte>)
    ensures StripPadding(Encode(b)) == EncodeUnpadded(b)
  {
    var u := EncodeUnpadded(b);
    var s := Encode(b);
    EncodeLength(b);
    assert |s| % 4 == 0;
    if |b| % 3 == 1 {
      assert s == u + "==";
      assert s[..|s| - 2] == u;
    } else if |b| % 3 == 2 {
      assert s == u + "=";
      UnpaddedLength(b);
      assert |u| >= 3;
      assert s[|s| - 2] == u[|u| - 1];
      assert IsBase64Char(u[|u| - 1]);
      assert s[..|s| - 1] == u;
    } else {
      assert s == u;
      if |u| > 0 {
        assert IsBase64Char(s[|s| - 1]);
      }
    }
  }

  lemma {:induction false} StripWhitespaceAppend(a: string, b: string)
    ensures StripWhitespace(a + b) == StripWhitespace(a) + StripWhitespace(b)
  {
    if a == [] {
      assert a + b == b;
    } else {
      assert (a + b)[0] == a[0] && (a + b)[1..] == a[1..] + b;
      StripWhitespaceAppend(a[1..], b);
    }
  }

  lemma {:induction false} StripWhitespaceOfBase64(s: string)
    requires forall i :: 0 <= i < |s| ==> !IsAsciiWhitespace(s[i])
    ensures StripWhitespace(s) == s
  {
    if s != [] {
      StripWhitespaceOfBase64(s[1..]);
      assert [s[0]] + s[1..] == s;
    }
  }

  /** The line feeds Wrap inserts are all that whitespace removal takes away. */
  lemma {:induction false} StripWhitespaceOfWrap(s: string)
    ensures StripWhitespace(Wrap(s)) == StripWhitespace(s)
    decreases |s|
  {
    if s == [] {
    } else if |s| <= LineLength {
      StripWhitespaceAppend(s, "\n");
    } else {
      StripWhitespaceAppend(s[..LineLength] + "\n", Wrap(s[LineLength..]));
      StripWhitespaceAppend(s[..LineLength], "\n");
      StripWhitespaceOfWrap(s[LineLength..]);
      StripWhitespaceAppend(s[..LineLength], s[LineLength..]);
      assert s[..LineLength] + s[LineLength..] == s;
    }
  }

  /** The number of characters Wrap adds: one line feed per started line. */
  lemma {:induction false} WrapLength(s: string)
    ensures |Wrap(s)| == |s| + (|s| + LineLength - 1) / LineLength
    decreases |s|
  {
    if |s| > LineLength {
      WrapLength(s[LineLength..]);
    }
  }

  lemma {:induction false} EncodeHasNoWhitespace(b: seq<byte>)
    ensures StripWhitespace(Encode(b)) == Encode(b)
  {
    var u, e := EncodeUnpadded(b), Encode(b);
    forall i | 0 <= i < |e|
      ensures !IsAsciiWhitespace(e[i])
    {
      if i < |u| {
        assert e[i] == u[i];
      } else {
        assert e[i] == '=';
      }
    }
    StripWhitespaceOfBase64(e);
  }

  /** Any text that is the RFC 4648 encoding of b once whitespace is removed decodes to b. */
  lemma {:induction false} ForgivingDecodeUpToWhitespace(b: seq<byte>, s: string)
    requires StripWhitespace(s) == Encode(b)
    ensures ForgivingDecode(s) == Some(b)
  {
    StripPaddingOfEncode(b);
    var u := EncodeUnpadded(b);
    DecodableLengthMod(|u|);
    assert StripPadding(StripWhitespace(s)) == u;
    DecodeEncodeUnpadded(b);
  }

  /** `atob` recovers exactly the bytes Android's default encoder was given. */
  lemma {:induction false} ForgivingDecodeAndroidEncode(b: seq<byte>)
    ensures ForgivingDecode(AndroidEncode(b)) == Some(b)
  {
    StripWhitespaceOfWrap(Encode(b));
    EncodeHasNoWhitespace(b);
    ForgivingDecodeUpToWhitespace(b, AndroidEncode(b));
  }

  /** `atob` also recovers the bytes from the unwrapped RFC 4648 text. */
  lemma {:induction false} ForgivingDecodeEncode(b: seq<byte>)
    ensures ForgivingDecode(Encode(b)) == Some(b)
  {
    EncodeHasNoWhitespace(b);
    ForgivingDecodeUpToWhitespace(b, Encode(b));
  }

  /** Android's default text is four characters per started group of three bytes, plus one line feed per started line. */
  lemma {:induction false} AndroidEncodeLength(b: seq<byte>)
    ensures |Encode(b)| == 4 * ((|b| + 2) / 3)
    ensures |AndroidEncode(b)| == |Encode(b)| + (|Encode(b)| + LineLength - 1) / LineLength
  {
    EncodeLength(b);
    WrapLength(Encode(b));
  }
}
