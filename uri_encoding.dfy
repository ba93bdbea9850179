/**
 * `encodeURIComponent`, as the package URL uses it: each character is encoded in UTF-8 and every
 * byte outside the unescaped set becomes a percent-encoded triplet `%HH` with upper-case hex digits
 * (section 2.1 of RFC 3986).  The unescaped set is that of ECMAScript's encodeURIComponent: the
 * RFC 3986 unreserved characters plus `!*'()`.
 */
module UriEncoding {
  import opened Wrappers

  newtype byte = x: int | 0 <= x < 256

  /** The UTF-8 encoding of one Unicode scalar value. */
  function Utf8(c: char): (bs: seq<byte>)
    ensures 1 <= |bs| <= 4
    ensures |bs| == 1 <==> c as int < 0x80
    ensures |bs| == 2 <==> 0x80 <= c as int < 0x800
    ensures |bs| == 3 <==> 0x800 <= c as int < 0x10000
    ensures |bs| == 1 ==> bs[0] as int == c as int
    ensures |bs| > 1 ==> bs[0] >= 0xC0 && forall k :: 1 <= k < |bs| ==> 0x80 <= bs[k] < 0xC0
  {
    var cp := c as int;
    if cp < 0x80 then [cp as byte]
    else if cp < 0x800 then [(0xC0 + cp / 64) as byte, (0x80 + cp % 64) as byte]
    else if cp < 0x10000 then
      [(0xE0 + cp / 4096) as byte, (0x80 + (cp / 64) % 64) as byte, (0x80 + cp % 64) as byte]
    else
      [(0xF0 + cp / 262144) as byte, (0x80 + (cp / 4096) % 64) as byte,
       (0x80 + (cp / 64) % 64) as byte, (0x80 + cp % 64) as byte]
  }

  /** The code point a UTF-8 sequence of one to four bytes stands for. */
  function Utf8Value(bs: seq<byte>): int
    requires 1 <= |bs| <= 4
  {
    if |bs| == 1 then bs[0] as int
    else if |bs| == 2 then (bs[0] as int - 0xC0) * 64 + (bs[1] as int - 0x80)
    else if |bs| == 3 then (bs[0] as int - 0xE0) * 4096 + (bs[1] as int - 0x80) * 64 + (bs[2] as int - 0x80)
    else (bs[0] as int - 0xF0) * 262144 + (bs[1] as int - 0x80) * 4096 + (bs[2] as int - 0x80) * 64 + (bs[3] as int - 0x80)
  }

  /** Decoding the UTF-8 bytes of a character gives back its code point. */
  lemma Utf8RoundTrip(c: char)
    ensures Utf8Value(Utf8(c)) == c as int
  {
    var cp := c as int;
    assert cp == (cp / 64) * 64 + cp % 64;
    assert cp / 64 == ((cp / 64) / 64) * 64 + (cp / 64) % 64;
    assert cp / 4096 == (cp / 64) / 64;
    assert cp / 4096 == ((cp / 4096) / 64) * 64 + (cp / 4096) % 64;
    assert cp / 262144 == (cp / 4096) / 64;
  }

  /** Characters `encodeURIComponent` leaves as they are. */
  predicate IsUnescaped(c: char) {
    || ('A' <= c <= 'Z') || ('a' <= c <= 'z') || ('0' <= c <= '9')
    || c == '-' || c == '_' || c == '.' || c == '!' || c == '~' || c == '*' || c == '\'' || c == '(' || c == ')'
  }

  predicate IsHexDigit(c: char) {
    ('0' <= c <= '9') || ('A' <= c <= 'F')
  }

  function HexDigit(d: nat): (c: char)
    requires d < 16
    ensures IsHexDigit(c)
  {
    "0123456789ABCDEF"[d]
  }

  function HexValue(c: char): (d: nat)
    requires IsHexDigit(c)
    ensures d < 16
  {
    if c <= '9' then (c as int) - ('0' as int) else (c as int) - ('A' as int) + 10
  }

  lemma HexRoundTrip(d: nat)
    requires d < 16
    ensures HexValue(HexDigit(d)) == d
  {
  }

  /** One byte, percent-encoded unless it is the code of an unescaped ASCII character. */
  function EncodeByte(b: byte): (s: string)
    ensures s == [b as char] || s == ['%', HexDigit(b as nat / 16), HexDigit(b as nat % 16)]
    ensures s == [b as char] <==> b < 0x80 && IsUnescaped(b as char)
  {
    if b < 0x80 && IsUnescaped(b as char) then [b as char]
    else ['%', HexDigit(b as nat / 16), HexDigit(b as nat % 16)]
  }

  /** Characters that may appear in percent-encoded output. */
  predicate IsUriSafe(c: char) {
    IsUnescaped(c) || c == '%'
  }

  /** Percent-encoding of a byte sequence. */
  function PercentEncode(bs: seq<byte>): (s: string)
    ensures forall i :: 0 <= i < |s| ==> IsUriSafe(s[i])
    ensures |bs| <= |s| <= 3 * |bs|
  {
    if bs == [] then "" else EncodeByte(bs[0]) + PercentEncode(bs[1..])
  }

  /** The UTF-8 encoding of a whole string. */
  function Utf8String(s: string): seq<byte> {
    if s == [] then [] else Utf8(s[0]) + Utf8String(s[1..])
  }

  /** `encodeURIComponent(s)`, one character at a time. */
  function EncodeUriComponent(s: string): (e: string)
    ensures forall i :: 0 <= i < |e| ==> IsUriSafe(e[i])
  {
    if s == [] then "" else PercentEncode(Utf8(s[0])) + EncodeUriComponent(s[1..])
  }

  /** The inverse of percent-encoding: triplets become bytes, other ASCII characters their codes. */
  function PercentDecode(s: string): Option<seq<byte>> {
    if s == [] then Some([])
    else if s[0] == '%' then
      if |s| >= 3 && IsHexDigit(s[1]) && IsHexDigit(s[2]) then
        match PercentDecode(s[3..])
        case Some(rest) => Some([(HexValue(s[1]) * 16 + HexValue(s[2])) as byte] + rest)
        case None => None
      else None
    else if s[0] as int < 0x80 then
      match PercentDecode(s[1..])
      case Some(rest) => Some([s[0] as int as byte] + rest)
      case None => None
    else None
  }

  lemma {:induction false} PercentEncodeAppend(a: seq<byte>, b: seq<byte>)
    ensures PercentEncode(a + b) == PercentEncode(a) + PercentEncode(b)
  {
    if a == [] {
      assert a + b == b;
    } else {
      var head := EncodeByte(a[0]);
      assert (a + b)[0] == a[0];
      assert (a + b)[1..] == a[1..] + b;
      PercentEncodeAppend(a[1..], b);
      calc {
        PercentEncode(a + b);
        head + PercentEncode(a[1..] + b);
        head + (PercentEncode(a[1..]) + PercentEncode(b));
        (head + PercentEncode(a[1..])) + PercentEncode(b);
        PercentEncode(a) + PercentEncode(b);
      }
    }
  }

  /** Encoding a string is percent-encoding its UTF-8 bytes. */
  lemma {:induction false} EncodeIsPercentEncodedUtf8(s: string)
    ensures EncodeUriComponent(s) == PercentEncode(Utf8String(s))
  {
    if s != [] {
      EncodeIsPercentEncodedUtf8(s[1..]);
      PercentEncodeAppend(Utf8(s[0]), Utf8String(s[1..]));
    }
  }

  lemma EncodeByteDecodes(b: byte, rest: string, tail: seq<byte>)
    requires PercentDecode(rest) == Some(tail)
    ensures PercentDecode(EncodeByte(b) + rest) == Some([b] + tail)
  {
    var e := EncodeByte(b);
    if b < 0x80 && IsUnescaped(b as char) {
      assert (e + rest)[1..] == rest;
    } else {
      HexRoundTrip(b as nat / 16);
      HexRoundTrip(b as nat % 16);
      assert (e + rest)[3..] == rest;
    }
  }

  /** Percent-decoding undoes percent-encoding. */
  lemma {:induction false} PercentRoundTrip(bs: seq<byte>)
    ensures PercentDecode(PercentEncode(bs)) == Some(bs)
  {
    if bs != [] {
      PercentRoundTrip(bs[1..]);
      EncodeByteDecodes(bs[0], PercentEncode(bs[1..]), bs[1..]);
      assert [bs[0]] + bs[1..] == bs;
    }
  }

  /** Decoding `encodeURIComponent(s)` gives back the UTF-8 bytes of `s`. */
  lemma EncodeUriComponentRoundTrip(s: string)
    ensures PercentDecode(EncodeUriComponent(s)) == Some(Utf8String(s))
  {
    EncodeIsPercentEncodedUtf8(s);
    PercentRoundTrip(Utf8String(s));
  }

  lemma {:induction false} EncodeAppend(a: string, b: string)
    ensures EncodeUriComponent(a + b) == EncodeUriComponent(a) + EncodeUriComponent(b)
  {
    if a == [] {
      assert a + b == b;
    } else {
      assert (a + b)[1..] == a[1..] + b;
      EncodeAppend(a[1..], b);
      assert EncodeUriComponent(a + b) ==
        PercentEncode(Utf8(a[0])) + (EncodeUriComponent(a[1..]) + EncodeUriComponent(b));
    }
  }

  /** A string of unescaped characters encodes to itself. */
  lemma {:induction false} EncodeUnescaped(s: string)
    requires forall i :: 0 <= i < |s| ==> IsUnescaped(s[i])
    ensures EncodeUriComponent(s) == s
  {
    if s != [] {
      EncodeUnescaped(s[1..]);
      assert PercentEncode(Utf8(s[0])) == [s[0]];
    }
  }

  lemma EncodeSlash()
    ensures EncodeUriComponent("/") == "%2F"
  {
    assert Utf8('/') == [0x2F];
    assert EncodeByte(0x2F) == "%2F";
  }

  /** The encoding of a non-empty string starts with the encoding of the first byte of its first character. */
  lemma FirstByteIsPrefix(s: string)
    requires s != []
    ensures EncodeByte(Utf8(s[0])[0]) <= EncodeUriComponent(s)
  {
    var bs := Utf8(s[0]);
    assert PercentEncode(bs) == EncodeByte(bs[0]) + PercentEncode(bs[1..]);
  }

  /** `encodeURIComponent(s)` starts with `%40` exactly when `s` starts with `@`. */
  lemma LeadingPercent40(s: string)
    ensures (|EncodeUriComponent(s)| >= 3 && EncodeUriComponent(s)[..3] == "%40") <==> (s != [] && s[0] == '@')
  {
    if s != [] {
      FirstByteIsPrefix(s);
      var b := Utf8(s[0])[0];
      var e := EncodeUriComponent(s);
      if b < 0x80 && IsUnescaped(b as char) {
        assert e[0] == b as char;
        assert b != 0x40;
        assert s[0] != '@';
      } else {
        assert e[..3] == EncodeByte(b);
        HexRoundTrip(b as nat / 16);
        HexRoundTrip(b as nat % 16);
        assert e[..3] == "%40" ==> b == 0x40;
        assert s[0] == '@' ==> b == 0x40;
      }
    }
  }

  // ---------------------------------------------------------------------------------------------
  // The escaping Node's legacy `url.resolve` applies when it re-parses the relative reference.
  // Of the characters it escapes (space, quotes, `<`, `>`, `\`, `^`, backquote, braces, `|` and
  // the control characters), `'` is the only one `encodeURIComponent` leaves alone.

  /** Every `'` becomes `%27`; every other character stays. */
  function EscapeApostrophes(s: string): (r: string)
    ensures '\'' !in r
    ensures '\'' !in s ==> r == s
    ensures forall c :: c != '\'' && c != '%' && c != '2' && c != '7' ==> (c in r <==> c in s)
  {
    if s == [] then "" else (if s[0] == '\'' then "%27" else [s[0]]) + EscapeApostrophes(s[1..])
  }

  lemma {:induction false} EscapeApostrophesAppend(a: string, b: string)
    ensures EscapeApostrophes(a + b) == EscapeApostrophes(a) + EscapeApostrophes(b)
  {
    if a == [] {
      assert a + b == b;
    } else {
      var head := if a[0] == '\'' then "%27" else [a[0]];
      assert (a + b)[0] == a[0];
      assert (a + b)[1..] == a[1..] + b;
      EscapeApostrophesAppend(a[1..], b);
      calc {
        EscapeApostrophes(a + b);
        head + EscapeApostrophes(a[1..] + b);
        head + (EscapeApostrophes(a[1..]) + EscapeApostrophes(b));
        (head + EscapeApostrophes(a[1..])) + EscapeApostrophes(b);
        EscapeApostrophes(a) + EscapeApostrophes(b);
      }
    }
  }

  /** An escaped byte still decodes to itself: the apostrophe's code 0x27 comes back from `%27`. */
  lemma EscapedByteDecodes(b: byte, rest: string, tail: seq<byte>)
    requires PercentDecode(rest) == Some(tail)
    ensures PercentDecode(EscapeApostrophes(EncodeByte(b)) + rest) == Some([b] + tail)
  {
    var e := EncodeByte(b);
    if b == 0x27 {
      assert e == "'";
      assert EscapeApostrophes(e) == "%27";
      assert ("%27" + rest)[3..] == rest;
      assert HexValue('2') * 16 + HexValue('7') == 0x27;
    } else {
      assert e[0] != '\'';
      assert '\'' !in e;
      EncodeByteDecodes(b, rest, tail);
    }
  }

  /** Escaping apostrophes after percent-encoding does not change the bytes the text decodes to. */
  lemma {:induction false} EscapedPercentRoundTrip(bs: seq<byte>)
    ensures PercentDecode(EscapeApostrophes(PercentEncode(bs))) == Some(bs)
  {
    if bs != [] {
      EscapedPercentRoundTrip(bs[1..]);
      EscapeApostrophesAppend(EncodeByte(bs[0]), PercentEncode(bs[1..]));
      EscapedByteDecodes(bs[0], EscapeApostrophes(PercentEncode(bs[1..])), bs[1..]);
      assert [bs[0]] + bs[1..] == bs;
    }
  }
}
