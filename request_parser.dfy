/**
 * The request-line parser (`parse_request`, htttpd.py): Latin-1 decoding,
 * `strip()`, the first CRLF-separated line, its whitespace-separated tokens
 * and the percent-decoding of the target.
 */
module RequestParser {
  import opened Wrappers
  import opened Bytes
  import opened Seqs
  import opened HttpCls

  /** Python's `str.isspace()` for one character. */
  predicate IsSpace(c: char) {
    var n := c as int;
    || 0x09 <= n <= 0x0D || 0x1C <= n <= 0x20 || n == 0x85 || n == 0xA0
    || n == 0x1680 || 0x2000 <= n <= 0x200A || n == 0x2028 || n == 0x2029
    || n == 0x202F || n == 0x205F || n == 0x3000
  }

  predicate NoSpace(s: string) {
    forall k :: 0 <= k < |s| ==> !IsSpace(s[k])
  }

  /** Visible ASCII text is one Latin-1 token. */
  lemma VisibleToken(s: string)
    requires forall k :: 0 <= k < |s| ==> '!' <= s[k] <= '~'
    ensures NoSpace(s) && IsLatin1(s)
  {
  }

  /** `s.lstrip()`. */
  function StripLeft(s: string): (r: string)
    ensures |r| <= |s| && r == s[|s| - |r|..]
    ensures forall k :: 0 <= k < |s| - |r| ==> IsSpace(s[k])
    ensures r == [] || !IsSpace(r[0])
    decreases |s|
  {
    if s != [] && IsSpace(s[0]) then StripLeft(s[1..]) else s
  }

  /** `s.rstrip()`. */
  function StripRight(s: string): (r: string)
    ensures |r| <= |s| && r == s[..|r|]
    ensures forall k :: |r| <= k < |s| ==> IsSpace(s[k])
    ensures r == [] || !IsSpace(r[|r| - 1])
    decreases |s|
  {
    if s != [] && IsSpace(s[|s| - 1]) then StripRight(s[..|s| - 1]) else s
  }

  /** `s.strip()`. */
  function Strip(s: string): string {
    StripRight(StripLeft(s))
  }

  /** The length of the run of non-space characters that starts `s`. */
  function WordLength(s: string): (n: nat)
    ensures n <= |s|
    ensures forall k :: 0 <= k < n ==> !IsSpace(s[k])
    ensures n == |s| || IsSpace(s[n])
    decreases |s|
  {
    if s == [] || IsSpace(s[0]) then 0 else 1 + WordLength(s[1..])
  }

  /** `s.split()`: the maximal runs of non-space characters, in order. */
  function Words(s: string): (r: seq<string>)
    ensures forall k :: 0 <= k < |r| ==> r[k] != [] && NoSpace(r[k])
    decreases |s|
  {
    var t := StripLeft(s);
    if t == [] then []
    else
      var n := WordLength(t);
      [t[..n]] + Words(t[n..])
  }

  lemma WordsAfterSpace(c: char, s: string)
    requires IsSpace(c)
    ensures Words([c] + s) == Words(s)
  {
    assert ([c] + s)[1..] == s;
  }

  /** A word followed by nothing or by a space is split off first. */
  lemma WordsCons(w: string, tail: string)
    requires w != [] && NoSpace(w) && (tail == [] || IsSpace(tail[0]))
    ensures Words(w + tail) == [w] + Words(tail)
  {
    var s := w + tail;
    assert s[0] == w[0];
    assert StripLeft(s) == s;
    var n := WordLength(s);
    assert forall k :: 0 <= k < |w| ==> s[k] == w[k];
    if tail != [] {
      assert s[|w|] == tail[0];
    }
    assert n == |w|;
    assert s[..n] == w;
    assert s[n..] == tail;
  }

  lemma WordsJoinStep(w: string, rest: string)
    requires w != [] && NoSpace(w)
    ensures Words(w + " " + rest) == [w] + Words(rest)
  {
    assert w + " " + rest == w + ([' '] + rest);
    WordsCons(w, [' '] + rest);
    WordsAfterSpace(' ', rest);
  }

  /** Splitting words joined by single spaces gives the words back. */
  lemma {:induction false} WordsJoin(ws: seq<string>)
    requires forall k :: 0 <= k < |ws| ==> ws[k] != [] && NoSpace(ws[k])
    ensures Words(JoinWith(ws, " ")) == ws
    decreases |ws|
  {
    if |ws| == 1 {
      WordsSingle(ws[0]);
      assert [ws[0]] == ws;
    } else if |ws| > 1 {
      WordsJoin(ws[1..]);
      WordsJoinCons(ws);
    }
  }

  lemma WordsSingle(w: string)
    requires w != [] && NoSpace(w)
    ensures Words(JoinWith([w], " ")) == [w]
  {
    WordsCons(w, []);
    assert w + [] == w;
  }

  lemma WordsJoinCons(ws: seq<string>)
    requires |ws| > 1 && ws[0] != [] && NoSpace(ws[0])
    requires Words(JoinWith(ws[1..], " ")) == ws[1..]
    ensures Words(JoinWith(ws, " ")) == ws
  {
    var rest := JoinWith(ws[1..], " ");
    assert JoinWith(ws, " ") == ws[0] + " " + rest;
    WordsJoinStep(ws[0], rest);
    assert [ws[0]] + ws[1..] == ws;
  }

  /** The value of a hexadecimal digit (either case). */
  function HexValue(c: char): (r: Option<nat>)
    ensures r.Some? ==> r.value < 16
  {
    if '0' <= c <= '9' then Some(c as int - '0' as int)
    else if 'a' <= c <= 'f' then Some(c as int - 'a' as int + 10)
    else if 'A' <= c <= 'F' then Some(c as int - 'A' as int + 10)
    else None
  }

  /**
   * `urllib.parse.unquote`, one character per decoded byte: `%XX` with two
   * hexadecimal digits becomes the character with code 0xXX, and any other
   * `%` is kept as it is.
   */
  function Unquote(s: string): (r: string)
    ensures |r| <= |s|
    ensures '%' !in s ==> r == s
    decreases |s|
  {
    if |s| >= 3 && s[0] == '%' && HexValue(s[1]).Some? && HexValue(s[2]).Some? then
      [(HexValue(s[1]).value * 16 + HexValue(s[2]).value) as char] + Unquote(s[3..])
    else if s == [] then []
    else [s[0]] + Unquote(s[1..])
  }

  function HexDigit(d: nat): (c: char)
    requires d < 16
    ensures HexValue(c) == Some(d)
  {
    if d < 10 then ('0' as int + d) as char else ('A' as int + d - 10) as char
  }

  /** `urllib.parse.quote` with nothing safe: every character becomes `%XX`. */
  function Quote(s: string): (r: string)
    requires IsLatin1(s)
    ensures |r| == 3 * |s|
    decreases |s|
  {
    if s == [] then []
    else
      var n := s[0] as int;
      ['%', HexDigit(n / 16), HexDigit(n % 16)] + Quote(s[1..])
  }

  /** Percent-decoding undoes percent-encoding. */
  lemma {:induction false} UnquoteQuote(s: string)
    requires IsLatin1(s)
    ensures Unquote(Quote(s)) == s
    decreases |s|
  {
    if s != [] {
      var q := Quote(s);
      assert q[3..] == Quote(s[1..]);
      UnquoteQuote(s[1..]);
      assert s == [s[0]] + s[1..];
    }
  }

  /** Decoding comes before the traversal check, so an encoded `..` reaches it as `..`. */
  lemma EncodedDotDot()
    ensures Unquote("%2e%2E") == ".."
  {
    var s := "%2e%2E";
    assert HexValue('2') == Some(2) && HexValue('e') == Some(14) && HexValue('E') == Some(14);
    assert s[3..] == "%2E";
    assert Unquote(s[3..]) == ['.'] + Unquote([]);
  }

  /** The `ValueError` of unpacking a token list that does not hold exactly three tokens. */
  datatype ParseError = ValueError(tokenCount: nat)

  /** `parse_request`: the method and the percent-decoded target of the request line. */
  function ParseRequest(data: seq<byte>): (r: Result<Request, ParseError>)
    ensures data == [] ==> r == Failure(ValueError(0))
    ensures r.Success? ==> r.value.httpMethod != [] && NoSpace(r.value.httpMethod)
  {
    var requestLine := Strip(Latin1Decode(data));
    var parsedData := SplitOn(requestLine, CRLF);
    var tokens := Words(parsedData[0]);
    if |tokens| != 3 then Failure(ValueError(|tokens|))
    else Success(Request(tokens[0], Unquote(tokens[1])))
  }

  /** The request line `line`, followed by CRLF and anything, strips and splits back to `line`. */
  lemma FirstLineOfStripped(line: string, rest: string)
    requires line != [] && !IsSpace(line[0]) && !IsSpace(line[|line| - 1])
    requires '\r' !in line && '\n' !in line
    ensures SplitOn(Strip(line + CRLF + rest), CRLF)[0] == line
  {
    var s := line + CRLF + rest;
    assert StripLeft(s) == s;
    var r := StripRight(s);
    assert r == Strip(s);
    assert s[|line| - 1] == line[|line| - 1];
    assert |r| >= |line|;
    assert s[|line|] == '\r';
    assert |r| != |line| + 1;
    assert Avoids(line, CRLF);
    if |r| == |line| {
      assert r == line;
      SplitNone(line, CRLF);
    } else {
      assert r == line + CRLF + r[|line| + 2..];
      SplitFirst(line, CRLF, r[|line| + 2..]);
    }
  }

  /**
   * A request line of whitespace-free tokens, followed by CRLF and any
   * Latin-1 text, parses exactly when it has three tokens; the request then
   * holds the first token and the percent-decoded second.
   */
  lemma ParseRequestLine(ws: seq<string>, rest: string)
    requires |ws| >= 1
    requires forall k :: 0 <= k < |ws| ==> ws[k] != [] && NoSpace(ws[k]) && IsLatin1(ws[k])
    requires IsLatin1(rest)
    ensures IsLatin1(JoinWith(ws, " ") + CRLF + rest)
    ensures var data := Latin1Encode(JoinWith(ws, " ") + CRLF + rest);
      ParseRequest(data) ==
        if |ws| == 3 then Success(Request(ws[0], Unquote(ws[1]))) else Failure(ValueError(|ws|))
  {
    var line := JoinWith(ws, " ");
    var text := line + CRLF + rest;
    LineShape(ws);
    RequestTextIsLatin1(line, rest);
    var data := Latin1Encode(text);
    Latin1RoundTrip(text);
    FirstLineOfStripped(line, rest);
    WordsJoin(ws);
    ParseRequestOfLine(data, ws);
  }

  /**
   * The same holds of a request line the client sends alone, without CRLF
   * (it then closes the connection): it parses exactly when it has three
   * tokens.
   */
  lemma ParseBareRequestLine(ws: seq<string>)
    requires |ws| >= 1
    requires forall k :: 0 <= k < |ws| ==> ws[k] != [] && NoSpace(ws[k]) && IsLatin1(ws[k])
    ensures IsLatin1(JoinWith(ws, " "))
    ensures var data := Latin1Encode(JoinWith(ws, " "));
      ParseRequest(data) ==
        if |ws| == 3 then Success(Request(ws[0], Unquote(ws[1]))) else Failure(ValueError(|ws|))
  {
    var line := JoinWith(ws, " ");
    LineShape(ws);
    Latin1RoundTrip(line);
    BareLine(line);
    WordsJoin(ws);
    ParseRequestOfLine(Latin1Encode(line), ws);
  }

  /** A request line alone strips and splits to itself. */
  lemma BareLine(line: string)
    requires line != [] && !IsSpace(line[0]) && !IsSpace(line[|line| - 1])
    requires '\r' !in line && '\n' !in line
    ensures SplitOn(Strip(line), CRLF)[0] == line
  {
    assert StripLeft(line) == line;
    assert StripRight(line) == line;
    assert Avoids(line, CRLF);
    SplitNone(line, CRLF);
  }

  lemma ThreeTokens(httpMethod: string, target: string, version: string)
    requires httpMethod != [] && NoSpace(httpMethod) && IsLatin1(httpMethod)
    requires target != [] && NoSpace(target) && IsLatin1(target)
    requires version != [] && NoSpace(version) && IsLatin1(version)
    ensures var ws := [httpMethod, target, version];
      JoinWith(ws, " ") == httpMethod + " " + target + " " + version
      && forall k :: 0 <= k < |ws| ==> ws[k] != [] && NoSpace(ws[k]) && IsLatin1(ws[k])
  {
    var ws := [httpMethod, target, version];
    assert JoinWith(ws[2..], " ") == version;
    assert JoinWith(ws[1..], " ") == target + " " + version;
  }

  /** A request line of three tokens parses to its method and its percent-decoded target. */
  lemma ParseThreeTokens(httpMethod: string, target: string, version: string, rest: string)
    requires httpMethod != [] && NoSpace(httpMethod) && IsLatin1(httpMethod)
    requires target != [] && NoSpace(target) && IsLatin1(target)
    requires version != [] && NoSpace(version) && IsLatin1(version)
    requires IsLatin1(rest)
    ensures IsLatin1(httpMethod + " " + target + " " + version + CRLF + rest)
    ensures ParseRequest(Latin1Encode(httpMethod + " " + target + " " + version + CRLF + rest))
      == Success(Request(httpMethod, Unquote(target)))
  {
    ThreeTokens(httpMethod, target, version);
    ParseRequestLine([httpMethod, target, version], rest);
  }

  lemma RequestTextIsLatin1(line: string, rest: string)
    requires IsLatin1(line) && IsLatin1(rest)
    ensures IsLatin1(line + CRLF + rest)
  {
    assert IsLatin1(CRLF);
    Latin1EncodeAppend(line, CRLF);
    Latin1EncodeAppend(line + CRLF, rest);
  }

  lemma LineShape(ws: seq<string>)
    requires |ws| >= 1
    requires forall k :: 0 <= k < |ws| ==> ws[k] != [] && NoSpace(ws[k]) && IsLatin1(ws[k])
    ensures var line := JoinWith(ws, " ");
      line != [] && !IsSpace(line[0]) && !IsSpace(line[|line| - 1])
      && '\r' !in line && '\n' !in line && IsLatin1(line)
  {
    JoinLatin1(ws);
    JoinEnds(ws);
    var last := ws[|ws| - 1];
    assert !IsSpace(ws[0][0]) && !IsSpace(last[|last| - 1]);
  }

  lemma ParseRequestOfLine(data: seq<byte>, ws: seq<string>)
    requires Words(SplitOn(Strip(Latin1Decode(data)), CRLF)[0]) == ws
    ensures ParseRequest(data) ==
      if |ws| == 3 then Success(Request(ws[0], Unquote(ws[1]))) else Failure(ValueError(|ws|))
  {
  }

  lemma {:induction false} JoinLatin1(ws: seq<string>)
    requires forall k :: 0 <= k < |ws| ==> IsLatin1(ws[k])
    ensures IsLatin1(JoinWith(ws, " "))
    decreases |ws|
  {
    if |ws| > 1 {
      JoinLatin1(ws[1..]);
    }
  }

  /** Words joined by single spaces start and end with a word character and hold no CR. */
  lemma {:induction false} JoinEnds(ws: seq<string>)
    requires |ws| >= 1
    requires forall k :: 0 <= k < |ws| ==> ws[k] != [] && NoSpace(ws[k])
    ensures var line := JoinWith(ws, " ");
      line != [] && line[0] == ws[0][0] && line[|line| - 1] == ws[|ws| - 1][|ws[|ws| - 1]| - 1]
      && '\r' !in line && '\n' !in line
    decreases |ws|
  {
    if |ws| > 1 {
      JoinEnds(ws[1..]);
      var tail := JoinWith(ws[1..], " ");
      assert JoinWith(ws, " ") == ws[0] + " " + tail;
    } else {
      assert forall k :: 0 <= k < |ws[0]| ==> ws[0][k] != '\r' && ws[0][k] != '\n';
    }
  }

  /** Empty input is a bad request. */
  lemma EmptyRequestFails()
    ensures ParseRequest([]).Failure?
  {
  }

  /** `garbage\r\n\r\n` has one token on its request line and is a bad request. */
  lemma GarbageFails()
    ensures IsLatin1("garbage\r\n\r\n")
    ensures ParseRequest(Latin1Encode("garbage\r\n\r\n")) == Failure(ValueError(1))
  {
    GarbageToken();
    ParseRequestLine(["garbage"], "\r\n");
  }

  lemma GarbageToken()
    ensures "garbage" != [] && NoSpace("garbage") && IsLatin1("garbage") && IsLatin1("\r\n")
    ensures JoinWith(["garbage"], " ") + CRLF + "\r\n" == "garbage\r\n\r\n"
  {
    assert JoinWith(["garbage"], " ") == "garbage";
  }
}
