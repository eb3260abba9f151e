/**
 * The bytes `send_response` and `send_error` hand to `sendall` (htttpd.py):
 * six header lines joined by CRLF and encoded as UTF-8, a blank line, then
 * the body. A reader of that format is given beside them, and reading back
 * what was written recovers the status, the headers and the body.
 */
module ResponseWriter {
  import opened Wrappers
  import opened Bytes
  import opened Seqs
  import opened Decimal
  import opened HttpCls

  const LINE_BREAK: seq<byte> := [CR, LF]
  const STATUS_PREFIX: string := "HTTP/1.1 "
  const DATE_PREFIX: string := "Date: "
  const TYPE_PREFIX: string := "Content-Type: "
  const LENGTH_PREFIX: string := "Content-Length: "
  const SERVER_LINE: string := "Server: Otus-Python-HTTP-Server"
  const CONNECTION_LINE: string := "Connection: close"

  /** The header lines of a reply, in the order the server writes them. */
  function HeaderLines(status: Status, date: string, contentType: string, contentLength: nat): seq<string> {
    [ STATUS_PREFIX + status.ToString(),
      DATE_PREFIX + date,
      TYPE_PREFIX + contentType,
      LENGTH_PREFIX + Show(contentLength),
      SERVER_LINE,
      CONNECTION_LINE ]
  }

  /** `"\r\n".join(headers).encode("utf-8") + b"\r\n\r\n" + body`. */
  function Serialize(lines: seq<string>, body: seq<byte>): seq<byte> {
    Utf8Encode(JoinWith(lines, CRLF)) + HEADERS_END + body
  }

  /** `send_response(conn, response)`: the bytes sent; `date` is the formatted `datetime.now()`. */
  function SendResponse(response: Response, date: string): seq<byte> {
    Serialize(HeaderLines(response.status, date, response.contentType, response.contentLength), response.body)
  }

  /** The body of an error reply: `str(status).encode("utf-8")`. */
  function ErrorBody(status: Status): (body: seq<byte>)
    ensures |body| == |status.ToString()|
  {
    ToStringShape(status);
    Utf8Ascii(status.ToString());
    Utf8Encode(status.ToString())
  }

  /** `send_error(conn, status)`: a plain-text reply whose body is the rendered status. */
  function SendError(status: Status, date: string): seq<byte> {
    var body := ErrorBody(status);
    Serialize(HeaderLines(status, date, "text/plain", |body|), body)
  }

  /** The head of a reply as a client reads it. */
  datatype Head = Head(status: Status, date: string, contentType: string, contentLength: nat)

  /** The text of a header line after `name`, when the line is UTF-8 and starts with `name`. */
  function Field(line: seq<byte>, name: string): Option<string> {
    match Utf8Decode(line)
    case None => None
    case Some(text) =>
      if |text| >= |name| && text[..|name|] == name then Some(text[|name|..]) else None
  }

  /** Reads the six header lines of a reply, without the blank line after them. */
  function ParseHead(head: seq<byte>): Option<Head> {
    var lines := SplitOn(head, LINE_BREAK);
    if |lines| != 6 || Utf8Decode(lines[4]) != Some(SERVER_LINE) || Utf8Decode(lines[5]) != Some(CONNECTION_LINE) then None
    else
      var statusText := Field(lines[0], STATUS_PREFIX);
      var date := Field(lines[1], DATE_PREFIX);
      var contentType := Field(lines[2], TYPE_PREFIX);
      var lengthText := Field(lines[3], LENGTH_PREFIX);
      if statusText.None? || date.None? || contentType.None? || lengthText.None? then None
      else if |lengthText.value| == 0 || !AllDigits(lengthText.value) then None
      else
        match ParseStatus(statusText.value)
        case None => None
        case Some(status) => Some(Head(status, date.value, contentType.value, Read(lengthText.value)))
  }

  /**
   * Reads a reply: the head ends at the first blank line, holds exactly the
   * six lines the server writes, and what follows the blank line is the body.
   */
  function ParseReply(wire: seq<byte>): Option<(Head, seq<byte>)> {
    match IndexOf(wire, HEADERS_END)
    case None => None
    case Some(i) =>
      match ParseHead(wire[..i])
      case None => None
      case Some(head) => Some((head, wire[i + |HEADERS_END|..]))
  }

  /** The UTF-8 encoding of each line. */
  function EncodeLines(lines: seq<string>): (r: seq<seq<byte>>)
    ensures |r| == |lines| && forall k :: 0 <= k < |lines| ==> r[k] == Utf8Encode(lines[k])
  {
    seq(|lines|, k requires 0 <= k < |lines| => Utf8Encode(lines[k]))
  }

  /** Encoding lines joined by CRLF is joining their encodings by the bytes CR LF. */
  lemma {:induction false} Utf8JoinLines(lines: seq<string>)
    ensures Utf8Encode(JoinWith(lines, CRLF)) == JoinWith(EncodeLines(lines), LINE_BREAK)
    decreases |lines|
  {
    if |lines| > 1 {
      var rest := JoinWith(lines[1..], CRLF);
      Utf8EncodeAppend(lines[0], CRLF);
      Utf8EncodeAppend(lines[0] + CRLF, rest);
      assert Utf8Encode(CRLF) == LINE_BREAK;
      assert EncodeLines(lines)[1..] == EncodeLines(lines[1..]);
      Utf8JoinLines(lines[1..]);
    }
  }

  /** Lines that are not empty and hold no CR or LF byte. */
  predicate PlainLines(ls: seq<seq<byte>>) {
    forall k :: 0 <= k < |ls| ==> |ls[k]| > 0 && Avoids(ls[k], LINE_BREAK)
  }

  lemma JoinStartsWithLine(ls: seq<seq<byte>>)
    requires |ls| > 0 && PlainLines(ls)
    ensures |JoinWith(ls, LINE_BREAK)| > 0 && JoinWith(ls, LINE_BREAK)[0] == ls[0][0]
  {
    assert |ls[0]| > 0;
  }

  /**
   * In plain lines joined by CR LF, every CR is followed, two places on, by
   * the first byte of the next line, which is not CR.
   */
  lemma {:induction false} NoBlankLine(ls: seq<seq<byte>>)
    requires PlainLines(ls)
    ensures forall i :: 0 <= i < |JoinWith(ls, LINE_BREAK)| && JoinWith(ls, LINE_BREAK)[i] == CR ==>
      i + 2 < |JoinWith(ls, LINE_BREAK)| && JoinWith(ls, LINE_BREAK)[i + 2] != CR
    decreases |ls|
  {
    var j := JoinWith(ls, LINE_BREAK);
    if |ls| == 1 {
      assert Avoids(ls[0], LINE_BREAK);
    } else if |ls| > 1 {
      var first := ls[0];
      var tail := JoinWith(ls[1..], LINE_BREAK);
      assert j == first + LINE_BREAK + tail;
      assert Avoids(first, LINE_BREAK);
      NoBlankLine(ls[1..]);
      JoinStartsWithLine(ls[1..]);
      assert forall i :: 0 <= i < |first| ==> j[i] == first[i];
      forall i | 0 <= i < |j| && j[i] == CR ensures i + 2 < |j| && j[i + 2] != CR {
        if i == |first| {
          assert j[i + 2] == tail[0] == ls[1][0];
          assert Avoids(ls[1], LINE_BREAK);
        } else if i > |first| + 1 {
          assert j[i] == tail[i - |first| - 2];
          assert j[i + 2] == tail[i - |first|];
        }
      }
    }
  }

  /** The first blank line after plain lines joined by CR LF is the one that ends them. */
  lemma HeadEnd(ls: seq<seq<byte>>, body: seq<byte>)
    requires PlainLines(ls)
    ensures IndexOf(JoinWith(ls, LINE_BREAK) + HEADERS_END + body, HEADERS_END) == Some(|JoinWith(ls, LINE_BREAK)|)
  {
    var j := JoinWith(ls, LINE_BREAK);
    var wire := j + HEADERS_END + body;
    NoBlankLine(ls);
    assert wire[|j|..|j| + 4] == HEADERS_END;
    assert OccursAt(wire, HEADERS_END, |j|);
    forall i | 0 <= i < |j| ensures !OccursAt(wire, HEADERS_END, i) {
      assert wire[i] == j[i];
      assert wire[i..i + 4][0] == wire[i];
      if j[i] == CR {
        assert i + 2 < |j| && j[i + 2] != CR;
        assert wire[i + 2] == j[i + 2];
        assert wire[i..i + 4][2] == wire[i + 2];
      }
    }
  }

  /** A header line `name + value` reads back as `value`. */
  lemma FieldOfLine(name: string, value: string)
    ensures Field(Utf8Encode(name + value), name) == Some(value)
  {
    Utf8RoundTrip(name + value);
    assert (name + value)[..|name|] == name;
    assert (name + value)[|name|..] == value;
  }

  /** A non-empty line without '\r' or '\n' encodes to a plain line. */
  lemma EncodedLineIsPlain(line: string)
    requires line != [] && '\r' !in line && '\n' !in line
    ensures |Utf8Encode(line)| > 0 && Avoids(Utf8Encode(line), LINE_BREAK)
  {
    Utf8NoLineBreak(line);
  }

  lemma NoBreakInConcat(a: string, b: string)
    requires '\r' !in a && '\n' !in a && '\r' !in b && '\n' !in b
    ensures '\r' !in a + b && '\n' !in a + b
  {
    assert forall k :: 0 <= k < |a + b| ==> (a + b)[k] == if k < |a| then a[k] else b[k - |a|];
  }

  /** A non-empty text without line breaks. */
  predicate OneLine(s: string) {
    s != [] && '\r' !in s && '\n' !in s
  }

  lemma PrefixedLine(prefix: string, value: string)
    requires prefix != [] && '\r' !in prefix && '\n' !in prefix && '\r' !in value && '\n' !in value
    ensures OneLine(prefix + value)
  {
    NoBreakInConcat(prefix, value);
  }

  lemma FixedTextsAreOneLine()
    ensures OneLine(STATUS_PREFIX) && OneLine(DATE_PREFIX) && OneLine(TYPE_PREFIX) && OneLine(LENGTH_PREFIX)
    ensures OneLine(SERVER_LINE) && OneLine(CONNECTION_LINE)
  {
    assert OneLine(STATUS_PREFIX) && OneLine(DATE_PREFIX);
    assert OneLine(TYPE_PREFIX) && OneLine(LENGTH_PREFIX);
    assert OneLine(SERVER_LINE);
    assert OneLine(CONNECTION_LINE);
  }

  lemma StatusLineIsOneLine(status: Status)
    ensures OneLine(STATUS_PREFIX + status.ToString())
  {
    ToStringShape(status);
    FixedTextsAreOneLine();
    PrefixedLine(STATUS_PREFIX, status.ToString());
  }

  lemma LengthLineIsOneLine(contentLength: nat)
    ensures OneLine(LENGTH_PREFIX + Show(contentLength))
  {
    var digits := Show(contentLength);
    assert '\r' !in digits && '\n' !in digits by {
      assert forall k :: 0 <= k < |digits| ==> IsDigit(digits[k]);
    }
    FixedTextsAreOneLine();
    PrefixedLine(LENGTH_PREFIX, digits);
  }

  lemma HeaderLinesHaveNoBreak(status: Status, date: string, contentType: string, contentLength: nat)
    requires '\r' !in date && '\n' !in date && '\r' !in contentType && '\n' !in contentType
    ensures var lines := HeaderLines(status, date, contentType, contentLength);
      forall k :: 0 <= k < 6 ==> OneLine(lines[k])
  {
    var lines := HeaderLines(status, date, contentType, contentLength);
    FixedTextsAreOneLine();
    StatusLineIsOneLine(status);
    PrefixedLine(DATE_PREFIX, date);
    PrefixedLine(TYPE_PREFIX, contentType);
    LengthLineIsOneLine(contentLength);
  }

  /** The header lines of a reply whose date and content type hold no line break are plain once encoded. */
  lemma HeaderLinesArePlain(status: Status, date: string, contentType: string, contentLength: nat)
    requires '\r' !in date && '\n' !in date && '\r' !in contentType && '\n' !in contentType
    ensures PlainLines(EncodeLines(HeaderLines(status, date, contentType, contentLength)))
  {
    var lines := HeaderLines(status, date, contentType, contentLength);
    HeaderLinesHaveNoBreak(status, date, contentType, contentLength);
    forall k | 0 <= k < 6 ensures |EncodeLines(lines)[k]| > 0 && Avoids(EncodeLines(lines)[k], LINE_BREAK) {
      assert OneLine(lines[k]);
      EncodedLineIsPlain(lines[k]);
    }
  }

  /** Reading the head the server writes gives back the status and header values. */
  lemma ParseHeaderLines(status: Status, date: string, contentType: string, contentLength: nat)
    requires '\r' !in date && '\n' !in date && '\r' !in contentType && '\n' !in contentType
    ensures ParseHead(JoinWith(EncodeLines(HeaderLines(status, date, contentType, contentLength)), LINE_BREAK))
      == Some(Head(status, date, contentType, contentLength))
  {
    var lines := HeaderLines(status, date, contentType, contentLength);
    var enc := EncodeLines(lines);
    HeaderLinesArePlain(status, date, contentType, contentLength);
    SplitJoin(enc, LINE_BREAK);
    Utf8RoundTrip(SERVER_LINE);
    Utf8RoundTrip(CONNECTION_LINE);
    FieldOfLine(STATUS_PREFIX, status.ToString());
    FieldOfLine(DATE_PREFIX, date);
    FieldOfLine(TYPE_PREFIX, contentType);
    FieldOfLine(LENGTH_PREFIX, Show(contentLength));
    ParseToString(status);
    ReadShow(contentLength);
  }

  /**
   * What `send_response` writes reads back as the response's status, the
   * date, its content type and content length, followed by its body, when
   * neither the date nor the content type holds a line break.
   */
  lemma ParseSendResponse(response: Response, date: string)
    requires '\r' !in date && '\n' !in date
    requires '\r' !in response.contentType && '\n' !in response.contentType
    ensures ParseReply(SendResponse(response, date))
      == Some((Head(response.status, date, response.contentType, response.contentLength), response.body))
  {
    var lines := HeaderLines(response.status, date, response.contentType, response.contentLength);
    var enc := EncodeLines(lines);
    var head := JoinWith(enc, LINE_BREAK);
    Utf8JoinLines(lines);
    HeaderLinesArePlain(response.status, date, response.contentType, response.contentLength);
    var wire := SendResponse(response, date);
    assert wire == head + HEADERS_END + response.body;
    HeadEnd(enc, response.body);
    assert wire[..|head|] == head;
    assert wire[|head| + |HEADERS_END|..] == response.body;
    ParseHeaderLines(response.status, date, response.contentType, response.contentLength);
  }

  /**
   * What `send_error` writes reads back as the status, the date, `text/plain`
   * and the length of the rendered status, followed by the rendered status.
   */
  lemma ParseSendError(status: Status, date: string)
    requires '\r' !in date && '\n' !in date
    ensures ParseReply(SendError(status, date))
      == Some((Head(status, date, "text/plain", |status.ToString()|), Utf8Encode(status.ToString())))
  {
    var body := ErrorBody(status);
    PlainTextType();
    var response := Response(status, body, "text/plain", |body|);
    ParseSendResponse(response, date);
    assert SendError(status, date) == SendResponse(response, date);
  }

  lemma PlainTextType()
    ensures '\r' !in "text/plain" && '\n' !in "text/plain"
  {
  }

  /** Every reply starts with its status line, `HTTP/1.1 <code> <reason>`, and a line break. */
  lemma StatusLineFirst(response: Response, date: string)
    ensures var line := Utf8Encode(STATUS_PREFIX + response.status.ToString());
      |SendResponse(response, date)| >= |line| + 2
      && SendResponse(response, date)[..|line| + 2] == line + LINE_BREAK
  {
    var lines := HeaderLines(response.status, date, response.contentType, response.contentLength);
    var enc := EncodeLines(lines);
    Utf8JoinLines(lines);
    var rest := JoinWith(enc[1..], LINE_BREAK);
    assert JoinWith(enc, LINE_BREAK) == enc[0] + LINE_BREAK + rest;
    var wire := SendResponse(response, date);
    assert wire == enc[0] + LINE_BREAK + (rest + HEADERS_END + response.body);
  }
}
