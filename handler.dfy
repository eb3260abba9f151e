/**
 * `handle_connection` (htttpd.py): read a request, then answer 400 when it
 * does not parse, 405 for a method other than GET and HEAD, 403 when the
 * target leaves the safe directory, 404 when no regular file answers it,
 * and 200 with the file otherwise.
 */
module Handler {
  import opened Wrappers
  import opened Bytes
  import opened Seqs
  import opened PosixPath
  import opened PurePaths
  import opened HttpCls
  import opened FrameReader
  import opened RequestParser
  import opened SafeUrl
  import opened PathResolver
  import opened ResponseWriter

  /** `HTTP_METHODS_ALLOWED`. */
  const HTTP_METHODS_ALLOWED: seq<string> := ["GET", "HEAD"]

  /** `CONTENT_TYPES_ALLOWED`: the content type served for each file suffix. */
  const CONTENT_TYPES_ALLOWED: map<string, string> := map[
    ".html" := "text/html",
    ".js" := "application/javascript",
    ".css" := "text/css",
    ".jpeg" := "image/jpeg",
    ".jpg" := "image/jpeg",
    ".png" := "image/png",
    ".gif" := "image/gif",
    ".swf" := "application/x-shockwave-flash",
    ".txt" := "text/plain"
  ]

  /**
   * How handling a request ends: an error reply, a served file, or the
   * `KeyError` of a suffix missing from the content-type table. Nothing
   * catches it: no reply is sent, `handle_connection` never reaches
   * `close`, and the worker thread ends.
   */
  datatype Outcome = Error(status: Status) | Served(response: Response) | UncaughtKeyError(suffix: string)

  /** The decisions of `handle_connection` on the bytes read from the client. */
  function Handle(data: seq<byte>, documentRoot: string, cwd: string, fs: FileSystem): Outcome
    requires IsAbs(cwd)
  {
    match ParseRequest(data)
    case Failure(_) => Error(BadRequest)
    case Success(request) => Answer(request, CheckSafeUrl(SAFE_DIR, request.target, cwd), documentRoot, cwd, fs)
  }

  /**
   * The decisions of `handle_connection` once the request has parsed;
   * `safe` is the verdict of the traversal check on the request.
   */
  function Answer(request: Request, safe: bool, documentRoot: string, cwd: string, fs: FileSystem): (r: Outcome)
    requires IsAbs(cwd)
    ensures r.Error? ==> r.status == MethodNotAllowed || r.status == Forbidden || r.status == NotFound
  {
    if request.httpMethod !in HTTP_METHODS_ALLOWED then Error(MethodNotAllowed)
    else if !safe then Error(Forbidden)
    else
      match ResolveTarget(documentRoot, request.target, cwd, fs)
      case Missing => Error(NotFound)
      case Found(path) =>
        var content := ReadBytes(fs, cwd, path);
        var body := if request.httpMethod == "HEAD" then [] else content;
        var suffix := Suffix(path);
        if suffix !in CONTENT_TYPES_ALLOWED then UncaughtKeyError(suffix)
        else Served(Response(OK, body, CONTENT_TYPES_ALLOWED[suffix], |content|))
  }

  /** The bytes handed to `sendall`, if any. */
  function Written(outcome: Outcome, date: string): Option<seq<byte>> {
    match outcome
    case Error(status) => Some(SendError(status, date))
    case Served(response) => Some(SendResponse(response, date))
    case UncaughtKeyError(_) => None
  }

  /**
   * `handle_connection`: read the request from the chunks the client sends,
   * decide, and write the reply. The connection is closed exactly when a
   * reply was written.
   */
  method HandleConnection(chunks: seq<seq<byte>>, documentRoot: string, cwd: string, fs: FileSystem, date: string)
    returns (sent: Option<seq<byte>>, closed: bool)
    requires IsAbs(cwd)
    ensures sent == Written(Handle(Received(chunks), documentRoot, cwd, fs), date)
    ensures closed <==> sent.Some?
  {
    var data := ReadRequest(chunks);
    var outcome := Handle(data, documentRoot, cwd, fs);
    sent, closed := Respond(outcome, date);
  }

  /**
   * The end of `handle_connection`: `send_error` or `send_response`, then
   * `close`. A client reading what was written gets back the status, the
   * headers and the body of the outcome: for an error, `text/plain` and the
   * rendered status as body. After the `KeyError` nothing is written and
   * `close` is never reached; the exception ends the worker thread.
   */
  method Respond(outcome: Outcome, date: string) returns (sent: Option<seq<byte>>, closed: bool)
    ensures sent == Written(outcome, date)
    ensures closed <==> sent.Some?
    ensures outcome.UncaughtKeyError? <==> sent.None?
    ensures outcome.Error? && '\r' !in date && '\n' !in date ==>
      ParseReply(sent.value)
      == Some((Head(outcome.status, date, "text/plain", |outcome.status.ToString()|), Utf8Encode(outcome.status.ToString())))
    ensures (outcome.Served? && '\r' !in date && '\n' !in date
             && '\r' !in outcome.response.contentType && '\n' !in outcome.response.contentType) ==>
      var response := outcome.response;
      ParseReply(sent.value) == Some((Head(response.status, date, response.contentType, response.contentLength), response.body))
  {
    match outcome
    case Error(status) =>
      sent := Some(SendError(status, date));
      closed := true;
      if '\r' !in date && '\n' !in date {
        ParseSendError(status, date);
      }
    case Served(response) =>
      sent := Some(SendResponse(response, date));
      closed := true;
      if '\r' !in date && '\n' !in date && '\r' !in response.contentType && '\n' !in response.contentType {
        ParseSendResponse(response, date);
      }
    case UncaughtKeyError(_) =>
      sent := None;
      closed := false;
  }

  /** 400 exactly when the request does not parse. */
  lemma BadRequestIff(data: seq<byte>, documentRoot: string, cwd: string, fs: FileSystem)
    requires IsAbs(cwd)
    ensures Handle(data, documentRoot, cwd, fs) == Error(BadRequest) <==> ParseRequest(data).Failure?
  {
    match ParseRequest(data)
    case Failure(_) =>
    case Success(request) =>
      assert Handle(data, documentRoot, cwd, fs) == Answer(request, CheckSafeUrl(SAFE_DIR, request.target, cwd), documentRoot, cwd, fs);
  }

  /** 405 exactly when the request parses and its method is neither GET nor HEAD, whatever the target. */
  lemma MethodNotAllowedIff(data: seq<byte>, documentRoot: string, cwd: string, fs: FileSystem)
    requires IsAbs(cwd)
    ensures Handle(data, documentRoot, cwd, fs) == Error(MethodNotAllowed)
      <==> (ParseRequest(data).Success? && ParseRequest(data).value.httpMethod !in HTTP_METHODS_ALLOWED)
  {
    match ParseRequest(data)
    case Failure(_) =>
    case Success(request) =>
      assert Handle(data, documentRoot, cwd, fs) == Answer(request, CheckSafeUrl(SAFE_DIR, request.target, cwd), documentRoot, cwd, fs);
  }

  /** 403 exactly when an allowed request's target fails the traversal check, whatever the file system holds. */
  lemma ForbiddenIff(data: seq<byte>, documentRoot: string, cwd: string, fs: FileSystem)
    requires IsAbs(cwd)
    ensures Handle(data, documentRoot, cwd, fs) == Error(Forbidden)
      <==> (ParseRequest(data).Success? && ParseRequest(data).value.httpMethod in HTTP_METHODS_ALLOWED
        && !CheckSafeUrl(SAFE_DIR, ParseRequest(data).value.target, cwd))
  {
  }

  /** 404 exactly when an allowed, safe request resolves to no regular file. */
  lemma NotFoundIff(data: seq<byte>, documentRoot: string, cwd: string, fs: FileSystem)
    requires IsAbs(cwd)
    ensures Handle(data, documentRoot, cwd, fs) == Error(NotFound)
      <==> (ParseRequest(data).Success? && ParseRequest(data).value.httpMethod in HTTP_METHODS_ALLOWED
        && CheckSafeUrl(SAFE_DIR, ParseRequest(data).value.target, cwd)
        && ResolveTarget(documentRoot, ParseRequest(data).value.target, cwd, fs).Missing?)
  {
  }

  /**
   * A served reply is 200 for a regular file: its length is the file's size
   * for GET and HEAD alike, its body the file's bytes for GET and nothing for
   * HEAD, and its content type the table's entry for the file's suffix.
   */
  lemma ServedReply(data: seq<byte>, documentRoot: string, cwd: string, fs: FileSystem)
    requires IsAbs(cwd)
    requires Handle(data, documentRoot, cwd, fs).Served?
    ensures var request := ParseRequest(data).value;
      var response := Handle(data, documentRoot, cwd, fs).response;
      var path := ResolveTarget(documentRoot, request.target, cwd, fs).path;
      ParseRequest(data).Success? && request.httpMethod in HTTP_METHODS_ALLOWED
      && ResolveTarget(documentRoot, request.target, cwd, fs).Found?
      && IsFile(fs, cwd, path)
      && response.status == OK
      && response.contentLength == |ReadBytes(fs, cwd, path)|
      && response.body == (if request.httpMethod == "HEAD" then [] else ReadBytes(fs, cwd, path))
      && Suffix(path) in CONTENT_TYPES_ALLOWED
      && response.contentType == CONTENT_TYPES_ALLOWED[Suffix(path)]
  {
  }

  /** Nothing is written, and `close` is never reached, exactly when the suffix has no content type. */
  lemma UncaughtKeyErrorIff(data: seq<byte>, documentRoot: string, cwd: string, fs: FileSystem)
    requires IsAbs(cwd)
    ensures Handle(data, documentRoot, cwd, fs).UncaughtKeyError?
      <==> (ParseRequest(data).Success? && ParseRequest(data).value.httpMethod in HTTP_METHODS_ALLOWED
        && CheckSafeUrl(SAFE_DIR, ParseRequest(data).value.target, cwd)
        && ResolveTarget(documentRoot, ParseRequest(data).value.target, cwd, fs).Found?
        && Suffix(ResolveTarget(documentRoot, ParseRequest(data).value.target, cwd, fs).path) !in CONTENT_TYPES_ALLOWED)
  {
  }

  /** HEAD answers as GET does for the same target, with the body left out. */
  lemma HeadIsGetWithoutBody(get: seq<byte>, head: seq<byte>, target: string, documentRoot: string, cwd: string, fs: FileSystem)
    requires IsAbs(cwd)
    requires ParseRequest(get) == Success(Request("GET", target))
    requires ParseRequest(head) == Success(Request("HEAD", target))
    ensures Handle(head, documentRoot, cwd, fs) ==
      match Handle(get, documentRoot, cwd, fs)
      case Served(response) => Served(response.(body := []))
      case other => other
  {
    AnswerHeadIsGet(target, CheckSafeUrl(SAFE_DIR, target, cwd), documentRoot, cwd, fs);
  }

  /** The same as `HeadIsGetWithoutBody`, on the request once parsed. */
  lemma AnswerHeadIsGet(target: string, safe: bool, documentRoot: string, cwd: string, fs: FileSystem)
    requires IsAbs(cwd)
    ensures Answer(Request("HEAD", target), safe, documentRoot, cwd, fs) ==
      match Answer(Request("GET", target), safe, documentRoot, cwd, fs)
      case Served(response) => Served(response.(body := []))
      case other => other
  {
    assert "GET" in HTTP_METHODS_ALLOWED && "HEAD" in HTTP_METHODS_ALLOWED;
    if safe {
      match ResolveTarget(documentRoot, target, cwd, fs)
      case Missing =>
      case Found(path) =>
    }
  }

  /** The text of a request line and what follows it, as a client sends it. */
  function RequestText(httpMethod: string, target: string, version: string, rest: string): string {
    httpMethod + " " + target + " " + version + CRLF + rest
  }

  /** The facts every request for `/<path><trail>` establishes, with `<path>` proper components under `httptest`. */
  lemma PlainRequest(httpMethod: string, root: seq<string>, path: seq<string>, trail: string, version: string, rest: string, cwd: string)
    requires httpMethod != [] && NoSpace(httpMethod) && IsLatin1(httpMethod)
    requires version != [] && NoSpace(version) && IsLatin1(version) && IsLatin1(rest)
    requires AllProper(root) && root != [] && NoPercent(root)
    requires AllProper(path) && path != [] && path[0] == "httptest" && NoPercent(path)
    requires trail == "" || trail == "/"
    requires var target := "/" + JoinWith(path, SEP) + trail; NoSpace(target) && IsLatin1(target) && '?' !in target
    requires IsAbs(cwd)
    ensures IsLatin1(RequestText(httpMethod, "/" + JoinWith(path, SEP) + trail, version, rest))
    ensures ParseRequest(Latin1Encode(RequestText(httpMethod, "/" + JoinWith(path, SEP) + trail, version, rest)))
      == Success(Request(httpMethod, "/" + JoinWith(path, SEP) + trail))
    ensures CheckSafeUrl(SAFE_DIR, "/" + JoinWith(path, SEP) + trail, cwd)
    ensures StripTarget("/" + JoinWith(path, SEP) + trail) == JoinWith(path, SEP) + trail
    ensures TargetPath("/" + JoinWith(root, SEP), "/" + JoinWith(path, SEP) + trail) == PurePath("/", root + path)
    ensures Locate(cwd, PurePath("/", root + path)) == root + path
  {
    var target := "/" + JoinWith(path, SEP) + trail;
    PlainTargetUnquoted(path, trail);
    ParseThreeTokens(httpMethod, target, version, rest);
    PlainTargetIsSafe(path, trail, cwd);
    PlainTargetStrips(JoinWith(path, SEP), trail);
    PlainTargetPath(root, path, trail, target, cwd);
  }

  lemma PlainTargetUnquoted(path: seq<string>, trail: string)
    requires NoPercent(path) && (trail == "" || trail == "/")
    ensures Unquote("/" + JoinWith(path, SEP) + trail) == "/" + JoinWith(path, SEP) + trail
  {
    var j := JoinWith(path, SEP);
    var target := "/" + j + trail;
    assert forall k :: 0 <= k < |path| ==> Avoids(path[k], "%");
    JoinAvoids(path, SEP, "%");
    assert forall k :: 0 <= k < |target| ==> target[k] == '/' || target[k] == j[k - 1];
  }

  lemma PlainTargetStrips(j: string, trail: string)
    requires '?' !in "/" + j + trail
    ensures StripTarget("/" + j + trail) == j + trail
  {
    var target := "/" + j + trail;
    assert target == "/" + (j + trail) + "";
    assert forall k :: 0 <= k < |j + trail| ==> (j + trail)[k] == target[1 + k];
    StripPlainTarget(j + trail, "");
  }

  lemma AllowedMethodToken(httpMethod: string)
    requires httpMethod in HTTP_METHODS_ALLOWED
    ensures httpMethod != [] && NoSpace(httpMethod) && IsLatin1(httpMethod)
  {
    if httpMethod == "GET" {
      assert NoSpace("GET") && IsLatin1("GET");
    } else {
      assert NoSpace("HEAD") && IsLatin1("HEAD");
    }
  }

  lemma TextContentType()
    ensures ".txt" in CONTENT_TYPES_ALLOWED && CONTENT_TYPES_ALLOWED[".txt"] == "text/plain"
  {
  }

  lemma HtmlContentType()
    ensures ".html" in CONTENT_TYPES_ALLOWED && CONTENT_TYPES_ALLOWED[".html"] == "text/html"
  {
  }

  /** Past the method and the guard, a resolved file is answered with its bytes and the content type of its suffix. */
  lemma AnswerFound(request: Request, documentRoot: string, cwd: string, fs: FileSystem, path: PurePath)
    requires IsAbs(cwd) && request.httpMethod in HTTP_METHODS_ALLOWED
    requires ResolveTarget(documentRoot, request.target, cwd, fs) == Found(path)
    ensures var content := ReadBytes(fs, cwd, path);
      var suffix := Suffix(path);
      Answer(request, true, documentRoot, cwd, fs)
      == if suffix in CONTENT_TYPES_ALLOWED
         then Served(Response(OK, if request.httpMethod == "HEAD" then [] else content, CONTENT_TYPES_ALLOWED[suffix], |content|))
         else UncaughtKeyError(suffix)
  {
  }

  /** Past the method and the guard, a target that resolves to nothing is answered 404. */
  lemma AnswerMissing(request: Request, documentRoot: string, cwd: string, fs: FileSystem)
    requires IsAbs(cwd) && request.httpMethod in HTTP_METHODS_ALLOWED
    requires ResolveTarget(documentRoot, request.target, cwd, fs) == Missing
    ensures Answer(request, true, documentRoot, cwd, fs) == Error(NotFound)
  {
  }

  /** The outcome for request bytes that parse, as the decision on the parsed request. */
  lemma HandleParsed(data: seq<byte>, request: Request, documentRoot: string, cwd: string, fs: FileSystem)
    requires IsAbs(cwd) && ParseRequest(data) == Success(request)
    requires CheckSafeUrl(SAFE_DIR, request.target, cwd)
    ensures Handle(data, documentRoot, cwd, fs) == Answer(request, true, documentRoot, cwd, fs)
  {
  }

  /** In a tree, the path of a document root's and a target's proper components is looked up where its text points. */
  lemma PlainLocation(fs: FileSystem, cwd: string, root: seq<string>, path: seq<string>)
    requires IsAbs(cwd) && IsTree(fs) && AllProper(root) && AllProper(path) && root != []
    requires root + path in fs
    ensures Lookup(fs, cwd, PurePath("/", root + path)) == Some(root + path)
  {
    assert forall k :: 0 <= k < |root + path| ==> (root + path)[k] == (if k < |root| then root[k] else path[k - |root|]);
    LookupRooted(fs, cwd, root + path);
  }

  /** In a tree, a regular file at such a path is a file to `is_file` and `read_bytes` gives its content. */
  lemma PlainFile(fs: FileSystem, cwd: string, root: seq<string>, path: seq<string>, content: seq<byte>)
    requires IsAbs(cwd) && IsTree(fs) && AllProper(root) && AllProper(path) && root != []
    requires root + path in fs && fs[root + path] == File(content)
    ensures IsFile(fs, cwd, PurePath("/", root + path))
    ensures ReadBytes(fs, cwd, PurePath("/", root + path)) == content
  {
    PlainLocation(fs, cwd, root, path);
  }

  lemma NoTrail(s: string)
    ensures s + "" == s
  {
  }

  /** In a tree, a plain target naming a regular file resolves to it. */
  lemma PlainFileFound(root: seq<string>, path: seq<string>, cwd: string, fs: FileSystem, content: seq<byte>)
    requires AllProper(root) && root != [] && NoPercent(root)
    requires AllProper(path) && path != [] && NoPercent(path)
    requires '?' !in "/" + JoinWith(path, SEP)
    requires IsAbs(cwd) && IsTree(fs)
    requires root + path in fs && fs[root + path] == File(content)
    ensures ResolveTarget("/" + JoinWith(root, SEP), "/" + JoinWith(path, SEP), cwd, fs) == Found(PurePath("/", root + path))
    ensures ReadBytes(fs, cwd, PurePath("/", root + path)) == content
  {
    var target := "/" + JoinWith(path, SEP);
    PlainTargetStrips(JoinWith(path, SEP), "");
    assert target + "" == target && JoinWith(path, SEP) + "" == JoinWith(path, SEP);
    PlainTargetPath(root, path, "", target, cwd);
    JoinEndsWithComponent(path);
    PlainFile(fs, cwd, root, path, content);
    ResolvesFile("/" + JoinWith(root, SEP), target, cwd, fs, PurePath("/", root + path));
  }

  /** In a tree, the `index.html` of such a path is looked up one component below it. */
  lemma IndexLocation(fs: FileSystem, cwd: string, root: seq<string>, path: seq<string>)
    requires IsAbs(cwd) && IsTree(fs) && AllProper(root) && AllProper(path) && root != []
    requires root + path + ["index.html"] in fs
    ensures IsPart("index.html")
    ensures Lookup(fs, cwd, Child(PurePath("/", root + path), "index.html")) == Some(root + path + ["index.html"])
  {
    IndexIsPart();
    var dir := PurePath("/", root + path);
    assert WellFormed(dir);
    var index := Child(dir, "index.html");
    assert index.parts == root + path + ["index.html"];
    assert root + path + ["index.html"] == root + (path + ["index.html"]);
    assert Proper("index.html");
    PlainLocation(fs, cwd, root, path + ["index.html"]);
  }

  /**
   * GET or HEAD of `/<path>` for a regular file under the document root:
   * 200 with the file's size, its bytes for GET, and the content type of its
   * suffix; a suffix without a content type ends the worker silently.
   */
  lemma ServesFile(httpMethod: string, root: seq<string>, path: seq<string>, version: string, rest: string,
                   cwd: string, fs: FileSystem, content: seq<byte>)
    requires httpMethod in HTTP_METHODS_ALLOWED
    requires version != [] && NoSpace(version) && IsLatin1(version) && IsLatin1(rest)
    requires AllProper(root) && root != [] && NoPercent(root)
    requires AllProper(path) && path != [] && path[0] == "httptest" && NoPercent(path)
    requires var target := "/" + JoinWith(path, SEP); NoSpace(target) && IsLatin1(target) && '?' !in target
    requires IsAbs(cwd) && IsTree(fs)
    requires root + path in fs && fs[root + path] == File(content)
    ensures IsLatin1(RequestText(httpMethod, "/" + JoinWith(path, SEP), version, rest))
    ensures var suffix := Suffix(PurePath("/", root + path));
      Handle(Latin1Encode(RequestText(httpMethod, "/" + JoinWith(path, SEP), version, rest)), "/" + JoinWith(root, SEP), cwd, fs)
      == if suffix in CONTENT_TYPES_ALLOWED
         then Served(Response(OK, if httpMethod == "HEAD" then [] else content, CONTENT_TYPES_ALLOWED[suffix], |content|))
         else UncaughtKeyError(suffix)
  {
    var target := "/" + JoinWith(path, SEP);
    var documentRoot := "/" + JoinWith(root, SEP);
    var file := PurePath("/", root + path);
    AllowedMethodToken(httpMethod);
    NoTrail(target);
    PlainRequest(httpMethod, root, path, "", version, rest, cwd);
    PlainFileFound(root, path, cwd, fs, content);
    HandleParsed(Latin1Encode(RequestText(httpMethod, target, version, rest)), Request(httpMethod, target), documentRoot, cwd, fs);
    AnswerFound(Request(httpMethod, target), documentRoot, cwd, fs, file);
  }

  /**
   * GET or HEAD of `/<path>` or `/<path>/` for a directory holding a regular
   * `index.html`: 200 with that file, as `text/html`.
   */
  lemma ServesDirectoryIndex(httpMethod: string, root: seq<string>, path: seq<string>, trail: string, version: string,
                             rest: string, cwd: string, fs: FileSystem, content: seq<byte>)
    requires httpMethod in HTTP_METHODS_ALLOWED
    requires version != [] && NoSpace(version) && IsLatin1(version) && IsLatin1(rest)
    requires AllProper(root) && root != [] && NoPercent(root)
    requires AllProper(path) && path != [] && path[0] == "httptest" && NoPercent(path)
    requires trail == "" || trail == "/"
    requires var target := "/" + JoinWith(path, SEP) + trail; NoSpace(target) && IsLatin1(target) && '?' !in target
    requires IsAbs(cwd) && IsTree(fs)
    requires root + path in fs && fs[root + path] == Directory
    requires root + path + ["index.html"] in fs && fs[root + path + ["index.html"]] == File(content)
    ensures IsLatin1(RequestText(httpMethod, "/" + JoinWith(path, SEP) + trail, version, rest))
    ensures Handle(Latin1Encode(RequestText(httpMethod, "/" + JoinWith(path, SEP) + trail, version, rest)), "/" + JoinWith(root, SEP), cwd, fs)
      == Served(Response(OK, if httpMethod == "HEAD" then [] else content, "text/html", |content|))
  {
    var target := "/" + JoinWith(path, SEP) + trail;
    var documentRoot := "/" + JoinWith(root, SEP);
    var dir := PurePath("/", root + path);
    AllowedMethodToken(httpMethod);
    PlainRequest(httpMethod, root, path, trail, version, rest, cwd);
    IndexIsPart();
    PlainLocation(fs, cwd, root, path);
    IndexLocation(fs, cwd, root, path);
    IndexSuffix(dir);
    HtmlContentType();
    ResolvesIndex(documentRoot, target, cwd, fs, dir);
    HandleParsed(Latin1Encode(RequestText(httpMethod, target, version, rest)), Request(httpMethod, target), documentRoot, cwd, fs);
    AnswerFound(Request(httpMethod, target), documentRoot, cwd, fs, Child(dir, "index.html"));
  }

  /** A target ending in `/` that names a regular file, not a directory, is not found. */
  lemma TrailingSlashOnFile(httpMethod: string, root: seq<string>, path: seq<string>, version: string, rest: string,
                            cwd: string, fs: FileSystem, content: seq<byte>)
    requires httpMethod in HTTP_METHODS_ALLOWED
    requires version != [] && NoSpace(version) && IsLatin1(version) && IsLatin1(rest)
    requires AllProper(root) && root != [] && NoPercent(root)
    requires AllProper(path) && path != [] && path[0] == "httptest" && NoPercent(path)
    requires var target := "/" + JoinWith(path, SEP) + "/"; NoSpace(target) && IsLatin1(target) && '?' !in target
    requires IsAbs(cwd)
    requires root + path in fs && fs[root + path] == File(content)
    ensures IsLatin1(RequestText(httpMethod, "/" + JoinWith(path, SEP) + "/", version, rest))
    ensures Handle(Latin1Encode(RequestText(httpMethod, "/" + JoinWith(path, SEP) + "/", version, rest)), "/" + JoinWith(root, SEP), cwd, fs)
      == Error(NotFound)
  {
    var target := "/" + JoinWith(path, SEP) + "/";
    var documentRoot := "/" + JoinWith(root, SEP);
    AllowedMethodToken(httpMethod);
    PlainRequest(httpMethod, root, path, "/", version, rest, cwd);
    assert EndsWithSlash(JoinWith(path, SEP) + "/");
    FileIsNotDir(fs, cwd, PurePath("/", root + path));
    ResolvesSlashOnFile(documentRoot, target, cwd, fs, PurePath("/", root + path));
    HandleParsed(Latin1Encode(RequestText(httpMethod, target, version, rest)), Request(httpMethod, target), documentRoot, cwd, fs);
    AnswerMissing(Request(httpMethod, target), documentRoot, cwd, fs);
  }

  /** A safe target naming nothing in the file system is not found. */
  lemma MissingFileNotFound(httpMethod: string, root: seq<string>, path: seq<string>, trail: string, version: string,
                            rest: string, cwd: string, fs: FileSystem)
    requires httpMethod in HTTP_METHODS_ALLOWED
    requires version != [] && NoSpace(version) && IsLatin1(version) && IsLatin1(rest)
    requires AllProper(root) && root != [] && NoPercent(root)
    requires AllProper(path) && path != [] && path[0] == "httptest" && NoPercent(path)
    requires trail == "" || trail == "/"
    requires var target := "/" + JoinWith(path, SEP) + trail; NoSpace(target) && IsLatin1(target) && '?' !in target
    requires IsAbs(cwd)
    requires root + path !in fs
    ensures IsLatin1(RequestText(httpMethod, "/" + JoinWith(path, SEP) + trail, version, rest))
    ensures Handle(Latin1Encode(RequestText(httpMethod, "/" + JoinWith(path, SEP) + trail, version, rest)), "/" + JoinWith(root, SEP), cwd, fs)
      == Error(NotFound)
  {
    var target := "/" + JoinWith(path, SEP) + trail;
    var documentRoot := "/" + JoinWith(root, SEP);
    AllowedMethodToken(httpMethod);
    PlainRequest(httpMethod, root, path, trail, version, rest, cwd);
    LookupMissing(fs, cwd, PurePath("/", root + path));
    assert ResolveTarget(documentRoot, target, cwd, fs) == Missing;
    HandleParsed(Latin1Encode(RequestText(httpMethod, target, version, rest)), Request(httpMethod, target), documentRoot, cwd, fs);
    AnswerMissing(Request(httpMethod, target), documentRoot, cwd, fs);
  }
}
