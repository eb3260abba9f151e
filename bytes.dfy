/**
 * Bytes and the two text encodings the server uses: ISO-8859-1 (Latin-1)
 * to decode a request, UTF-8 to encode a response head.
 */
module Bytes {
  import opened Wrappers

  type byte = b: int | 0 <= b < 0x100

  const CR: byte := 13
  const LF: byte := 10
  /** The line break of HTTP/1.1 as text. */
  const CRLF: string := "\r\n"
  /** `b"\r\n\r\n"`: the blank line that ends a message head. */
  const HEADERS_END: seq<byte> := [CR, LF, CR, LF]

  /** Python's `str(data, "iso-8859-1")`: every byte is the character with that code. */
  function Latin1Decode(data: seq<byte>): (s: string)
    ensures |s| == |data|
    ensures forall k :: 0 <= k < |data| ==> s[k] as int == data[k]
  {
    seq(|data|, k requires 0 <= k < |data| => data[k] as char)
  }

  predicate IsLatin1(s: string) {
    forall k :: 0 <= k < |s| ==> s[k] as int < 0x100
  }

  /** `s.encode("iso-8859-1")` for a string that has an encoding. */
  function Latin1Encode(s: string): (data: seq<byte>)
    requires IsLatin1(s)
    ensures |data| == |s|
  {
    seq(|s|, k requires 0 <= k < |s| => s[k] as int)
  }

  lemma Latin1RoundTrip(s: string)
    requires IsLatin1(s)
    ensures Latin1Decode(Latin1Encode(s)) == s
  {
  }

  lemma Latin1EncodeAppend(a: string, b: string)
    requires IsLatin1(a) && IsLatin1(b)
    ensures IsLatin1(a + b)
    ensures Latin1Encode(a + b) == Latin1Encode(a) + Latin1Encode(b)
  {
  }

  predicate IsContinuation(b: byte) {
    0x80 <= b < 0xC0
  }

  /** The UTF-8 encoding of one Unicode scalar value. */
  function EncodeChar(c: char): (r: seq<byte>)
    ensures 1 <= |r| <= 4
    ensures c as int < 0x80 <==> |r| == 1
    ensures |r| > 1 ==> forall k :: 0 <= k < |r| ==> r[k] >= 0x80
  {
    var n := c as int;
    if n < 0x80 then [n]
    else if n < 0x800 then [0xC0 + n / 0x40, 0x80 + n % 0x40]
    else if n < 0x10000 then [0xE0 + n / 0x1000, 0x80 + (n / 0x40) % 0x40, 0x80 + n % 0x40]
    else [0xF0 + n / 0x40000, 0x80 + (n / 0x1000) % 0x40, 0x80 + (n / 0x40) % 0x40, 0x80 + n % 0x40]
  }

  /** Python's `s.encode("utf-8")`. */
  function Utf8Encode(s: string): (r: seq<byte>)
    ensures |r| >= |s|
    decreases |s|
  {
    if s == [] then [] else EncodeChar(s[0]) + Utf8Encode(s[1..])
  }

  function Nth(b: seq<byte>, k: nat): int {
    if k < |b| then b[k] as int else 0
  }

  /**
   * Decodes the first character of a well-formed UTF-8 sequence and says how
   * many bytes it took; overlong forms, surrogates and values past U+10FFFF
   * are rejected.
   */
  function DecodeFirst(b: seq<byte>): (r: Option<(char, nat)>)
    requires |b| > 0
    ensures r.Some? ==> 1 <= r.value.1 <= |b|
  {
    var b0, b1, b2, b3 := b[0] as int, Nth(b, 1), Nth(b, 2), Nth(b, 3);
    if b0 < 0x80 then Some((b0 as char, 1))
    else if 0xC2 <= b0 < 0xE0 && |b| >= 2 && IsContinuation(b[1]) then
      Some((((b0 - 0xC0) * 0x40 + (b1 - 0x80)) as char, 2))
    else if 0xE0 <= b0 < 0xF0 && |b| >= 3 && IsContinuation(b[1]) && IsContinuation(b[2]) then
      var n := (b0 - 0xE0) * 0x1000 + (b1 - 0x80) * 0x40 + (b2 - 0x80);
      if n < 0x800 || (0xD800 <= n < 0xE000) then None else Some((n as char, 3))
    else if 0xF0 <= b0 < 0xF5 && |b| >= 4
      && IsContinuation(b[1]) && IsContinuation(b[2]) && IsContinuation(b[3]) then
      var n := (b0 - 0xF0) * 0x40000 + (b1 - 0x80) * 0x1000 + (b2 - 0x80) * 0x40 + (b3 - 0x80);
      if n < 0x10000 || n >= 0x110000 then None else Some((n as char, 4))
    else None
  }

  /** `data.decode("utf-8")` in strict mode: `None` stands for the UnicodeDecodeError. */
  function Utf8Decode(data: seq<byte>): (r: Option<string>)
    decreases |data|
  {
    if data == [] then Some([])
    else match DecodeFirst(data)
      case None => None
      case Some((c, len)) =>
        match Utf8Decode(data[len..])
        case None => None
        case Some(rest) => Some([c] + rest)
  }

  lemma DecodeEncodeChar(c: char, rest: seq<byte>)
    ensures var e := EncodeChar(c); DecodeFirst(e + rest) == Some((c, |e|))
  {
    var n := c as int;
    if n < 0x80 {
    } else if n < 0x800 {
      DecodeTwo(c, rest);
    } else if n < 0x10000 {
      DecodeThree(c, rest);
    } else {
      DecodeFour(c, rest);
    }
  }

  /** Splitting off the low six bits. */
  lemma SixBits(n: nat)
    ensures n / 0x40 * 0x40 + n % 0x40 == n && 0 <= n % 0x40 < 0x40
  {
  }

  lemma DecodeTwo(c: char, rest: seq<byte>)
    requires 0x80 <= c as int < 0x800
    ensures DecodeFirst(EncodeChar(c) + rest) == Some((c, 2))
  {
    var n := c as int;
    SixBits(n);
    var b := EncodeChar(c) + rest;
    assert b[0] == 0xC0 + n / 0x40 && b[1] == 0x80 + n % 0x40;
  }

  lemma DecodeThree(c: char, rest: seq<byte>)
    requires 0x800 <= c as int < 0x10000
    ensures DecodeFirst(EncodeChar(c) + rest) == Some((c, 3))
  {
    var n := c as int;
    SixBits(n);
    SixBits(n / 0x40);
    assert n / 0x40 / 0x40 == n / 0x1000;
    var b := EncodeChar(c) + rest;
    assert b[0] == 0xE0 + n / 0x1000 && b[1] == 0x80 + (n / 0x40) % 0x40 && b[2] == 0x80 + n % 0x40;
  }

  lemma DecodeFour(c: char, rest: seq<byte>)
    requires 0x10000 <= c as int
    ensures DecodeFirst(EncodeChar(c) + rest) == Some((c, 4))
  {
    var n := c as int;
    SixBits(n);
    SixBits(n / 0x40);
    SixBits(n / 0x1000);
    assert n / 0x40 / 0x40 == n / 0x1000;
    assert n / 0x1000 / 0x40 == n / 0x40000;
    var b := EncodeChar(c) + rest;
    assert b[0] == 0xF0 + n / 0x40000 && b[1] == 0x80 + (n / 0x1000) % 0x40;
    assert b[2] == 0x80 + (n / 0x40) % 0x40 && b[3] == 0x80 + n % 0x40;
  }

  lemma Utf8EncodeAppend(a: string, b: string)
    ensures Utf8Encode(a + b) == Utf8Encode(a) + Utf8Encode(b)
    decreases |a|
  {
    if a != [] {
      assert (a + b)[0] == a[0];
      assert (a + b)[1..] == a[1..] + b;
      Utf8EncodeAppend(a[1..], b);
    } else {
      assert a + b == b;
    }
  }

  /** Decoding what was encoded gives the text back: the encoding loses nothing. */
  lemma {:induction false} Utf8RoundTrip(s: string)
    ensures Utf8Decode(Utf8Encode(s)) == Some(s)
    decreases |s|
  {
    if s != [] {
      var e := EncodeChar(s[0]);
      var data := Utf8Encode(s);
      assert data == e + Utf8Encode(s[1..]);
      DecodeEncodeChar(s[0], Utf8Encode(s[1..]));
      assert data[|e|..] == Utf8Encode(s[1..]);
      Utf8RoundTrip(s[1..]);
      assert s == [s[0]] + s[1..];
    }
  }

  predicate IsAscii(s: string) {
    forall k :: 0 <= k < |s| ==> s[k] as int < 0x80
  }

  /** An ASCII string encodes to one byte per character, the character's own code. */
  lemma {:induction false} Utf8Ascii(s: string)
    requires IsAscii(s)
    ensures |Utf8Encode(s)| == |s|
    ensures forall k :: 0 <= k < |s| ==> Utf8Encode(s)[k] == s[k] as int
    decreases |s|
  {
    if s != [] {
      Utf8Ascii(s[1..]);
    }
  }

  /** Bytes CR (13) and LF (10) come only from the characters '\r' and '\n'. */
  lemma {:induction false} Utf8NoLineBreak(s: string)
    requires '\r' !in s && '\n' !in s
    ensures CR !in Utf8Encode(s) && LF !in Utf8Encode(s)
    decreases |s|
  {
    if s != [] {
      Utf8NoLineBreak(s[1..]);
    }
  }
}
