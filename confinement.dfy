/**
 * The traversal check of `handle_connection` (htttpd.py) looks at the
 * request target as a whole, while the file opened is built from the part
 * of the target between its first `/` and its first `?`, joined to the
 * document root. A `..` placed after the `?` is normalised away by the check
 * but never reaches the path opened. This module shows a request that the
 * handler as written answers with a file outside the document root, and
 * models the guard the check evidently intends: the path about to be opened,
 * normalised, lies within or at `SAFE_DIR` placed under the document root.
 */
module Confinement {
  import opened Wrappers
  import opened Seqs
  import opened Bytes
  import opened PosixPath
  import opened PurePaths
  import opened HttpCls
  import opened RequestParser
  import opened SafeUrl
  import opened PathResolver
  import opened Handler

  /** The components of the safe directory under the document root: `abspath(join(document_root, "httptest"))`. */
  function SafeRoot(documentRoot: string, cwd: string): seq<string>
    requires IsAbs(cwd)
  {
    PathComponents(AbsPath(cwd, Join(documentRoot, SAFE_DIR[1..])))
  }

  /** The corrected guard: the path the handler is about to open lies within or at the safe root. */
  predicate Confined(documentRoot: string, target: string, cwd: string)
    requires IsAbs(cwd)
  {
    IsPrefix(SafeRoot(documentRoot, cwd), Locate(cwd, TargetPath(documentRoot, target)))
  }

  /** `handle_connection` with the corrected guard in place of `check_safe_url(SAFE_DIR, target)`. */
  function ConfinedHandle(data: seq<byte>, documentRoot: string, cwd: string, fs: FileSystem): Outcome
    requires IsAbs(cwd)
  {
    match ParseRequest(data)
    case Failure(_) => Error(BadRequest)
    case Success(request) => Answer(request, Confined(documentRoot, request.target, cwd), documentRoot, cwd, fs)
  }

  /** A reply is served only past the guard, for a target that resolved to a file. */
  lemma AnswerServed(request: Request, safe: bool, documentRoot: string, cwd: string, fs: FileSystem)
    requires IsAbs(cwd)
    ensures Answer(request, safe, documentRoot, cwd, fs).Served? ==>
      safe && ResolveTarget(documentRoot, request.target, cwd, fs).Found?
  {
  }

  /** A resolved file lies within or at the path built from the target. */
  lemma FoundBelowTargetPath(documentRoot: string, target: string, cwd: string, fs: FileSystem)
    requires IsAbs(cwd)
    ensures ResolveTarget(documentRoot, target, cwd, fs).Found? ==>
      IsPrefix(Locate(cwd, TargetPath(documentRoot, target)), Locate(cwd, ResolveTarget(documentRoot, target, cwd, fs).path))
  {
    var r := ResolveTarget(documentRoot, target, cwd, fs);
    var path := TargetPath(documentRoot, target);
    if r.Found? {
      if r.path == path {
        PrefixOfAppend(Locate(cwd, path), []);
        assert Locate(cwd, path) + [] == Locate(cwd, path);
      } else {
        IndexIsPart();
        LocateChild(cwd, path, "index.html");
        PrefixOfAppend(Locate(cwd, path), ["index.html"]);
      }
    }
  }

  lemma PrefixOfAppend<T>(a: seq<T>, b: seq<T>)
    ensures IsPrefix(a, a + b)
  {
    assert (a + b)[..|a|] == a;
  }

  lemma PrefixTransitive<T>(a: seq<T>, b: seq<T>, c: seq<T>)
    requires IsPrefix(a, b) && IsPrefix(b, c)
    ensures IsPrefix(a, c)
  {
    assert c[..|a|] == c[..|b|][..|a|];
  }

  /**
   * Every file the corrected handler serves is located within or at the
   * safe root, whether it was named by the target or reached as the
   * `index.html` of a named directory.
   */
  lemma ConfinedServesOnlyInside(data: seq<byte>, documentRoot: string, cwd: string, fs: FileSystem)
    requires IsAbs(cwd)
    ensures ConfinedHandle(data, documentRoot, cwd, fs).Served? ==>
      ParseRequest(data).Success?
      && ResolveTarget(documentRoot, ParseRequest(data).value.target, cwd, fs).Found?
      && Lookup(fs, cwd, ResolveTarget(documentRoot, ParseRequest(data).value.target, cwd, fs).path)
         == Some(Locate(cwd, ResolveTarget(documentRoot, ParseRequest(data).value.target, cwd, fs).path))
      && IsPrefix(SafeRoot(documentRoot, cwd), Locate(cwd, ResolveTarget(documentRoot, ParseRequest(data).value.target, cwd, fs).path))
  {
    match ParseRequest(data)
    case Failure(_) =>
    case Success(request) =>
      var safe := Confined(documentRoot, request.target, cwd);
      assert ConfinedHandle(data, documentRoot, cwd, fs) == Answer(request, safe, documentRoot, cwd, fs);
      AnswerServed(request, safe, documentRoot, cwd, fs);
      if Answer(request, safe, documentRoot, cwd, fs).Served? {
        FoundBelowTargetPath(documentRoot, request.target, cwd, fs);
        LookupLocates(fs, cwd, ResolveTarget(documentRoot, request.target, cwd, fs).path);
        PrefixTransitive(SafeRoot(documentRoot, cwd), Locate(cwd, TargetPath(documentRoot, request.target)),
          Locate(cwd, ResolveTarget(documentRoot, request.target, cwd, fs).path));
      }
  }

  /** `SAFE_DIR` joined to a document root in normal form is the rooted path of the root's components and `httptest`. */
  lemma JoinSafeDir(root: seq<string>)
    requires AllProper(root) && root != []
    ensures AllProper(root + ["httptest"])
    ensures Join("/" + JoinWith(root, SEP), SAFE_DIR[1..]) == "/" + JoinWith(root + ["httptest"], SEP)
  {
    var dir := "/" + JoinWith(root, SEP);
    JoinEndsWithComponent(root);
    assert SAFE_DIR[1..] == "httptest";
    assert Join(dir, "httptest") == dir + SEP + "httptest";
    JoinWithAppend(root, ["httptest"], SEP);
    assert |"httptest"| > 2;
  }

  /** `SAFE_DIR` under a document root in normal form is the root's components followed by `httptest`. */
  lemma SafeRootOfNormalRoot(root: seq<string>, cwd: string)
    requires AllProper(root) && root != [] && IsAbs(cwd)
    ensures SafeRoot("/" + JoinWith(root, SEP), cwd) == root + ["httptest"]
  {
    JoinSafeDir(root);
    var joined := "/" + JoinWith(root + ["httptest"], SEP);
    assert AbsPath(cwd, joined) == NormPath(joined);
    NormPathComponents(joined);
    ResolveRooted("/", root + ["httptest"]);
  }

  /** The corrected guard still admits every target naming proper components under `/httptest`. */
  lemma PlainTargetConfined(root: seq<string>, path: seq<string>, trail: string, target: string, cwd: string)
    requires AllProper(root) && AllProper(path) && root != [] && path != [] && path[0] == "httptest"
    requires NoPercent(root) && NoPercent(path)
    requires trail == "" || trail == "/"
    requires StripTarget(target) == JoinWith(path, SEP) + trail
    requires IsAbs(cwd)
    ensures Confined("/" + JoinWith(root, SEP), target, cwd)
  {
    var dir := "/" + JoinWith(root, SEP);
    PlainTargetPath(root, path, trail, target, cwd);
    SafeRootOfNormalRoot(root, cwd);
    HeadPrefix(root, path);
    assert Locate(cwd, TargetPath(dir, target)) == root + path;
  }

  lemma HeadPrefix<T>(a: seq<T>, b: seq<T>)
    requires b != []
    ensures IsPrefix(a + [b[0]], a + b)
  {
    assert (a + b)[..|a| + 1] == a + [b[0]];
  }

  /**
   * On requests for `/<path>` or `/<path>/` with `<path>` proper components
   * under `httptest`, the corrected handler answers exactly as the handler
   * as written, so every serving property of the latter carries over.
   */
  lemma ConfinedAgreesOnPlainRequests(httpMethod: string, root: seq<string>, path: seq<string>, trail: string,
                                      version: string, rest: string, cwd: string, fs: FileSystem)
    requires httpMethod != [] && NoSpace(httpMethod) && IsLatin1(httpMethod)
    requires version != [] && NoSpace(version) && IsLatin1(version) && IsLatin1(rest)
    requires AllProper(root) && root != [] && NoPercent(root)
    requires AllProper(path) && path != [] && path[0] == "httptest" && NoPercent(path)
    requires trail == "" || trail == "/"
    requires var target := "/" + JoinWith(path, SEP) + trail; NoSpace(target) && IsLatin1(target) && '?' !in target
    requires IsAbs(cwd)
    ensures IsLatin1(RequestText(httpMethod, "/" + JoinWith(path, SEP) + trail, version, rest))
    ensures var data := Latin1Encode(RequestText(httpMethod, "/" + JoinWith(path, SEP) + trail, version, rest));
      ConfinedHandle(data, "/" + JoinWith(root, SEP), cwd, fs) == Handle(data, "/" + JoinWith(root, SEP), cwd, fs)
  {
    var target := "/" + JoinWith(path, SEP) + trail;
    PlainRequest(httpMethod, root, path, trail, version, rest, cwd);
    PlainTargetConfined(root, path, trail, target, cwd);
  }

  /** A target whose `..` components climb out of `/httptest` and whose query climbs back in. */
  const ESCAPING_TARGET: string := "/httptest/../../a.txt?/../httptest"

  /** The part of `ESCAPING_TARGET` the handler opens, below the document root. */
  const ESCAPING_PATH: string := "httptest/../../a.txt"

  /** The request line that carries `ESCAPING_TARGET`, with an empty header block. */
  const ESCAPING_REQUEST: string := "GET" + " " + ESCAPING_TARGET + " " + "HTTP/1.1" + CRLF + CRLF

  /** The path the handler builds for `ESCAPING_TARGET` under the document root `/www`. */
  const ESCAPED: PurePath := PurePath("/", ["www", "httptest", "..", "..", "a.txt"])

  lemma EscapingRequestParses()
    ensures IsLatin1(ESCAPING_REQUEST)
    ensures ParseRequest(Latin1Encode(ESCAPING_REQUEST)) == Success(Request("GET", ESCAPING_TARGET))
  {
    EscapingTokens();
    ParseThreeTokens("GET", ESCAPING_TARGET, "HTTP/1.1", CRLF);
  }

  lemma EscapingTokens()
    ensures NoSpace("GET") && IsLatin1("GET")
    ensures NoSpace("HTTP/1.1") && IsLatin1("HTTP/1.1")
    ensures NoSpace(ESCAPING_TARGET) && IsLatin1(ESCAPING_TARGET) && '%' !in ESCAPING_TARGET
    ensures IsLatin1(CRLF)
  {
    VisibleToken("GET");
    VisibleToken("HTTP/1.1");
    VisibleToken(ESCAPING_TARGET);
  }

  lemma EscapingTargetShape()
    ensures ESCAPING_TARGET == "/" + ESCAPING_PATH + "?/../httptest"
  {
  }

  lemma EscapingTargetStrips()
    ensures StripTarget(ESCAPING_TARGET) == ESCAPING_PATH
  {
    EscapingTargetShape();
    assert '?' !in ESCAPING_PATH;
    StripPlainTarget(ESCAPING_PATH, "?/../httptest");
  }

  lemma EscapedParts()
    ensures JoinWith(ESCAPED.parts, SEP) == "www/httptest/../../a.txt"
  {
    var parts := ESCAPED.parts;
    assert JoinWith(parts[3..], SEP) == "../a.txt";
    assert JoinWith(parts[2..], SEP) == "../../a.txt";
    assert JoinWith(parts[1..], SEP) == "httptest/../../a.txt";
  }

  lemma EscapedText()
    ensures ToString(ESCAPED) == Join("/www", ESCAPING_PATH)
    ensures '%' !in ToString(ESCAPED)
  {
    EscapedString();
    EscapedJoin();
    NoPercentInEscaped();
  }

  lemma EscapedString()
    ensures ToString(ESCAPED) == "/www/httptest/../../a.txt"
  {
    EscapedParts();
    assert "/" + "www/httptest/../../a.txt" == "/www/httptest/../../a.txt";
  }

  lemma NoPercentInEscaped()
    ensures '%' !in "/www/httptest/../../a.txt"
  {
  }

  lemma EscapedJoin()
    ensures Join("/www", ESCAPING_PATH) == "/www/httptest/../../a.txt"
  {
    JoinRelative("/www", ESCAPING_PATH);
  }

  /** The handler's path for a target is `p` when the joined text is already the text of `p` and holds no `%`. */
  lemma TargetPathOfText(documentRoot: string, target: string, p: PurePath)
    requires WellFormed(p)
    requires Join(documentRoot, StripTarget(target)) == ToString(p) && '%' !in ToString(p)
    ensures TargetPath(documentRoot, target) == p
  {
    PurePaths.ParseToString(p);
    assert ReplaceEncodedSpaces(ToString(p)) == ToString(p);
  }

  lemma EscapedWellFormed()
    ensures WellFormed(ESCAPED)
  {
    assert IsPart("www");
    assert IsPart("httptest");
    assert IsPart("..");
    assert IsPart("a.txt");
  }

  lemma EscapingTargetPath()
    ensures TargetPath("/www", ESCAPING_TARGET) == ESCAPED
  {
    EscapingTargetStrips();
    EscapedText();
    EscapedWellFormed();
    TargetPathOfText("/www", ESCAPING_TARGET, ESCAPED);
  }

  lemma EscapedSplit()
    ensures SplitOn(ToString(ESCAPED), SEP) == ["", "www", "httptest", "..", "..", "a.txt"]
  {
    var pieces := ["", "www", "httptest", "..", "..", "a.txt"];
    EscapedParts();
    assert pieces[1..] == ESCAPED.parts;
    assert forall k :: 0 <= k < |pieces| ==> '/' !in pieces[k];
    SplitPieces(ToString(ESCAPED), pieces);
  }

  lemma EscapedResolved()
    ensures NoSlash(["", "www", "httptest", "..", "..", "a.txt"])
    ensures Resolve([], ["", "www", "httptest", "..", "..", "a.txt"]) == ["a.txt"]
  {
    var pieces := ["", "www", "httptest", "..", "..", "a.txt"];
    assert |"www"| > 2 && |"httptest"| > 2 && |"a.txt"| > 2;
    assert Resolve([], pieces) == Resolve(["www"], pieces[2..]);
    assert Resolve(["www"], pieces[2..]) == Resolve(["www", "httptest"], pieces[3..]);
    assert Resolve(["www", "httptest"], pieces[3..]) == Resolve(["www"], pieces[4..]);
    assert Resolve(["www"], pieces[4..]) == Resolve([], pieces[5..]);
    assert Resolve([], pieces[5..]) == Resolve(["a.txt"], []);
  }

  /** The handler's path for `ESCAPING_TARGET` is `/a.txt`, outside the document root `/www`. */
  lemma EscapedLocation(cwd: string)
    requires IsAbs(cwd)
    ensures Locate(cwd, ESCAPED) == ["a.txt"]
  {
    LocateResolves(cwd, ESCAPED);
    assert Absolute(cwd, ToString(ESCAPED)) == ToString(ESCAPED);
    EscapedSplit();
    EscapedResolved();
  }

  lemma EscapedSuffix()
    ensures Suffix(ESCAPED) == ".txt"
  {
    var name := Name(ESCAPED);
    assert name == "a.txt";
    assert LastIndexOf("a.", '.') == 1;
    assert "a.t"[..2] == "a.";
    assert LastIndexOf("a.t", '.') == 1;
    assert "a.tx"[..3] == "a.t";
    assert LastIndexOf("a.tx", '.') == 1;
    assert name[..4] == "a.tx";
    assert LastIndexOf(name, '.') == 1;
    assert name[1..] == ".txt";
  }

  /**
   * A file system with the document root `/www`, its safe directory
   * `/www/httptest`, and a regular file `/a.txt` outside both.
   */
  function EscapeFs(secret: seq<byte>): FileSystem {
    map[["www"] := Directory, ["www", "httptest"] := Directory, ["a.txt"] := File(secret)]
  }

  lemma EscapeFsIsTree(secret: seq<byte>)
    ensures IsTree(EscapeFs(secret))
  {
    var fs := EscapeFs(secret);
    forall l | l in fs && l != []
      ensures DirAt(fs, l[..|l| - 1])
    {
      if l == ["www", "httptest"] {
        assert l[..1] == ["www"];
      } else {
        assert l[..0] == [];
      }
    }
  }

  lemma EscapeFsEntries(secret: seq<byte>)
    ensures ["www"] in EscapeFs(secret) && EscapeFs(secret)[["www"]] == Directory
    ensures ["www", "httptest"] in EscapeFs(secret) && EscapeFs(secret)[["www", "httptest"]] == Directory
    ensures ["a.txt"] in EscapeFs(secret) && EscapeFs(secret)[["a.txt"]] == File(secret)
  {
  }

  lemma EscapedNames()
    ensures Proper("www") && Proper("httptest") && Proper("a.txt")
    ensures [] + ["www"] == ["www"] && ["www"] + ["httptest"] == ["www", "httptest"] && [] + ["a.txt"] == ["a.txt"]
    ensures ["www", "httptest"][..1] == ["www"] && ["www"][..0] == []
  {
  }

  lemma EscapedPieces()
    ensures ["", "www", "httptest", "..", "..", "a.txt"] == [""] + (["www"] + (["httptest"] + ([".."] + ([".."] + (["a.txt"] + [])))))
  {
  }

  /** The lookup of the escaping path passes through `/www/httptest` and climbs twice to reach `/a.txt`. */
  lemma EscapedWalk(secret: seq<byte>)
    ensures NoSlash(["", "www", "httptest", "..", "..", "a.txt"])
    ensures Walk(EscapeFs(secret), [], ["", "www", "httptest", "..", "..", "a.txt"]) == Some(["a.txt"])
  {
    var fs := EscapeFs(secret);
    EscapeFsEntries(secret);
    EscapedNames();
    EscapedPieces();
    var t5: seq<string> := ["a.txt"] + [];
    var t4 := [".."] + t5;
    var t3 := [".."] + t4;
    var t2 := ["httptest"] + t3;
    var t1 := ["www"] + t2;
    WalkInto(fs, [], "a.txt", []);
    WalkUp(fs, ["www"], t5);
    WalkUp(fs, ["www", "httptest"], t4);
    WalkInto(fs, ["www"], "httptest", t3);
    WalkInto(fs, [], "www", t2);
    WalkLeadingEmpty(fs, t1);
  }

  /** On that file system, the lookup of the handler's path for `ESCAPING_TARGET` reaches the file `/a.txt`. */
  lemma EscapedLookup(secret: seq<byte>, cwd: string)
    requires IsAbs(cwd)
    ensures Lookup(EscapeFs(secret), cwd, ESCAPED) == Some(["a.txt"])
  {
    assert Absolute(cwd, ToString(ESCAPED)) == ToString(ESCAPED);
    EscapedSplit();
    EscapedWalk(secret);
  }

  /** With `/a.txt` a regular file, the escaping target resolves to it. */
  lemma EscapingTargetFound(secret: seq<byte>, cwd: string)
    requires IsAbs(cwd)
    ensures ResolveTarget("/www", ESCAPING_TARGET, cwd, EscapeFs(secret)) == Found(ESCAPED)
    ensures ReadBytes(EscapeFs(secret), cwd, ESCAPED) == secret
  {
    EscapingTargetPath();
    EscapedFile(secret, cwd);
    EscapingTargetStrips();
    assert !EndsWithSlash(ESCAPING_PATH);
    ResolvesFile("/www", ESCAPING_TARGET, cwd, EscapeFs(secret), ESCAPED);
  }

  lemma EscapedFile(secret: seq<byte>, cwd: string)
    requires IsAbs(cwd)
    ensures IsFile(EscapeFs(secret), cwd, ESCAPED)
    ensures ReadBytes(EscapeFs(secret), cwd, ESCAPED) == secret
  {
    EscapedLookup(secret, cwd);
    EscapeFsEntries(secret);
  }

  /** The safe root under the document root `/www` is `/www/httptest`. */
  lemma WwwSafeRoot(cwd: string)
    requires IsAbs(cwd)
    ensures SafeRoot("/www", cwd) == ["www", "httptest"]
    ensures !IsPrefix(["www", "httptest"], ["a.txt"]) && !IsPrefix(["www"], ["a.txt"])
  {
    assert JoinWith(["www"], SEP) == "www";
    assert "/www" == "/" + JoinWith(["www"], SEP);
    assert Proper("www");
    SafeRootOfNormalRoot(["www"], cwd);
    assert "a.txt" != "www";
  }

  /**
   * As written, the handler serves `/a.txt` for `ESCAPING_TARGET` under the
   * document root `/www`, although that file lies outside the safe root
   * `/www/httptest` and outside the document root itself. The file system
   * holds both directories, so the lookup of the opened path passes through
   * them as the operating system's would.
   */
  lemma QueryTraversalServed(secret: seq<byte>, cwd: string)
    requires IsAbs(cwd)
    ensures IsTree(EscapeFs(secret))
    ensures IsLatin1(ESCAPING_REQUEST)
    ensures Handle(Latin1Encode(ESCAPING_REQUEST), "/www", cwd, EscapeFs(secret))
      == Served(Response(OK, secret, "text/plain", |secret|))
    ensures Locate(cwd, ESCAPED) == ["a.txt"]
    ensures !IsPrefix(SafeRoot("/www", cwd), ["a.txt"]) && !IsPrefix(["www"], ["a.txt"])
  {
    var fs := EscapeFs(secret);
    var request := Request("GET", ESCAPING_TARGET);
    EscapeFsIsTree(secret);
    EscapingRequestParses();
    QueryTraversalAccepted(cwd);
    HandleParsed(Latin1Encode(ESCAPING_REQUEST), request, "/www", cwd, fs);
    EscapingTargetFound(secret, cwd);
    assert "GET" in HTTP_METHODS_ALLOWED;
    AnswerFound(request, "/www", cwd, fs, ESCAPED);
    EscapedSuffix();
    TextContentType();
    EscapedLocation(cwd);
    WwwSafeRoot(cwd);
  }

  /** With the corrected guard the same request is refused with 403. */
  lemma QueryTraversalRefused(secret: seq<byte>, cwd: string)
    requires IsAbs(cwd)
    ensures IsLatin1(ESCAPING_REQUEST)
    ensures ConfinedHandle(Latin1Encode(ESCAPING_REQUEST), "/www", cwd, EscapeFs(secret)) == Error(Forbidden)
  {
    var fs := EscapeFs(secret);
    EscapingRequestParses();
    EscapingTargetPath();
    EscapedLocation(cwd);
    WwwSafeRoot(cwd);
    assert !Confined("/www", ESCAPING_TARGET, cwd);
    assert ConfinedHandle(Latin1Encode(ESCAPING_REQUEST), "/www", cwd, fs)
      == Answer(Request("GET", ESCAPING_TARGET), false, "/www", cwd, fs);
  }
}
