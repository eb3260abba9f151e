/** The status registry and the two records of the server (file httpcls.py). */
module HttpCls {
  import opened Wrappers
  import opened Bytes
  import opened Decimal

  /** The closed enumeration of statuses, each with its (code, reason phrase) value. */
  datatype Status = OK | BadRequest | Forbidden | NotFound | MethodNotAllowed | RequestTimeout {

    function Value(): (int, string) {
      match this
      case OK => (200, "OK")
      case BadRequest => (400, "Bad Request")
      case Forbidden => (403, "Forbidden")
      case NotFound => (404, "Not Found")
      case MethodNotAllowed => (405, "Method Not Allowed")
      case RequestTimeout => (408, "Request Timeout")
    }

    function Code(): nat {
      Value().0
    }

    function Reason(): string {
      Value().1
    }

    /** `str(status)`: the decimal code, one space, the reason phrase. */
    function ToString(): (r: string)
      ensures |r| == |Show(Code())| + 1 + |Reason()|
    {
      Show(Code()) + " " + Reason()
    }
  }

  /** Every member of the enumeration, in declaration order. */
  const MEMBERS: seq<Status> := [OK, BadRequest, Forbidden, NotFound, MethodNotAllowed, RequestTimeout]

  /** The enumeration has exactly six members, with these (code, reason) pairs. */
  lemma ExactlySixMembers(s: Status)
    ensures s in MEMBERS && |MEMBERS| == 6
    ensures forall i, j :: 0 <= i < j < |MEMBERS| ==> MEMBERS[i] != MEMBERS[j]
    ensures s.Value() in {(200, "OK"), (400, "Bad Request"), (403, "Forbidden"),
                          (404, "Not Found"), (405, "Method Not Allowed"), (408, "Request Timeout")}
  {
  }

  /** The numeric codes are pairwise distinct. */
  lemma CodesDistinct(s: Status, t: Status)
    ensures s.Code() == t.Code() ==> s == t
  {
  }

  /** The member with a given code, if there is one (`HTTPStatus` looked up by its code). */
  function FromCode(code: int): (r: Option<Status>)
    ensures r.Some? ==> r.value.Code() == code
    ensures (exists s: Status :: s.Code() == code) ==> r.Some?
  {
    if code == 200 then Some(OK)
    else if code == 400 then Some(BadRequest)
    else if code == 403 then Some(Forbidden)
    else if code == 404 then Some(NotFound)
    else if code == 405 then Some(MethodNotAllowed)
    else if code == 408 then Some(RequestTimeout)
    else None
  }

  /**
   * Reads a status line's status back: three digits naming a code of the
   * table, a space, and then exactly the reason phrase the table gives that
   * code.
   */
  function ParseStatus(t: string): Option<Status> {
    if |t| >= 4 && AllDigits(t[..3]) && t[3] == ' ' then
      match FromCode(Read(t[..3]))
      case Some(s) => if t[4..] == s.Reason() then Some(s) else None
      case None => None
    else None
  }

  /** Printable ASCII: no control character, so in particular no CR and no LF. */
  predicate IsPrintable(s: string) {
    forall k :: 0 <= k < |s| ==> ' ' <= s[k] <= '~'
  }

  lemma ReasonIsPrintable(s: Status)
    ensures IsPrintable(s.Reason())
  {
  }

  /** A rendered status is a three-digit code and a space, then printable ASCII (so no CR or LF). */
  lemma ToStringShape(s: Status)
    ensures var r := s.ToString();
      |r| >= 5 && r[..3] == Show(s.Code()) && AllDigits(r[..3]) && r[3] == ' '
      && r[4..] == s.Reason()
      && IsPrintable(r) && IsAscii(r) && '\r' !in r && '\n' !in r
  {
    ShowThreeDigits(s.Code());
    ReasonIsPrintable(s);
    var digits, reason := Show(s.Code()), s.Reason();
    var r := s.ToString();
    assert r == digits + " " + reason;
    assert r[..3] == digits;
    assert r[4..] == reason;
    forall k | 0 <= k < |r| ensures ' ' <= r[k] <= '~' {
      if k >= 4 {
        assert r[k] == reason[k - 4];
      }
    }
  }

  /** Parsing a rendered status gives the status back. */
  lemma ParseToString(s: Status)
    ensures ParseStatus(s.ToString()) == Some(s)
  {
    ToStringShape(s);
    ReadShow(s.Code());
  }

  /** Rendering is injective: two statuses with the same text are the same status. */
  lemma ToStringInjective(s: Status, t: Status)
    ensures s.ToString() == t.ToString() ==> s == t
  {
    ParseToString(s);
    ParseToString(t);
  }

  /** `HTTPRequest`: an immutable record of exactly the method (`method` is a Dafny keyword, hence `httpMethod`) and the decoded target. */
  datatype Request = Request(httpMethod: string, target: string)

  /** `HTTPResponse`: an immutable record of status, body, content type and content length. */
  datatype Response = Response(status: Status, body: seq<byte>, contentType: string, contentLength: nat)
}
