/** The directory-traversal check (`check_safe_url`, htttpd.py). */
module SafeUrl {
  import opened Seqs
  import opened PosixPath

  /** The safe directory the server checks every target against (`SAFE_DIR`). */
  const SAFE_DIR: string := "/httptest"

  /**
   * `check_safe_url(safe_dir, target_url)`: the target, made absolute and
   * normalised, lies within or at `safe_dir` as `commonpath` sees it.
   * `cwd` is the server's working directory, which `abspath` joins to a
   * relative target.
   */
  function CheckSafeUrl(safeDir: string, targetUrl: string, cwd: string): bool
    requires IsAbs(safeDir) && IsAbs(cwd)
  {
    var match_ := AbsPath(cwd, targetUrl);
    safeDir == CommonPath(safeDir, match_)
  }

  lemma {:induction false} CommonPrefixOfPrefix(a: seq<string>, b: seq<string>)
    requires IsPrefix(a, b)
    ensures CommonPrefix(a, b) == a
    decreases |a|
  {
    if a != [] {
      assert b[0] == a[0];
      assert IsPrefix(a[1..], b[1..]) by {
        assert b[1..][..|a| - 1] == b[..|a|][1..];
      }
      CommonPrefixOfPrefix(a[1..], b[1..]);
    }
  }

  /**
   * For a safe directory written in normal form, the check holds exactly
   * when the safe directory's components are a prefix of the normalised
   * target's components.
   */
  lemma CheckSafeUrlIffPrefix(safe: seq<string>, targetUrl: string, cwd: string)
    requires AllProper(safe) && IsAbs(cwd)
    ensures NoSlash(SplitOn(Absolute(cwd, targetUrl), SEP))
    ensures CheckSafeUrl("/" + JoinWith(safe, SEP), targetUrl, cwd)
      <==> IsPrefix(safe, Resolve([], SplitOn(Absolute(cwd, targetUrl), SEP)))
  {
    var safeDir := "/" + JoinWith(safe, SEP);
    var p := Absolute(cwd, targetUrl);
    NormPathComponents(p);
    var resolved := Resolve([], SplitOn(p, SEP));
    RootedComponents("/", safe);
    var common := CommonPrefix(safe, resolved);
    assert AllProper(common) by {
      assert forall k :: 0 <= k < |common| ==> common[k] == safe[k];
    }
    RootedComponents("/", common);
    assert CommonPath(safeDir, AbsPath(cwd, targetUrl)) == "/" + JoinWith(common, SEP);
    if IsPrefix(safe, resolved) {
      CommonPrefixOfPrefix(safe, resolved);
    }
  }

  lemma SplitPieces(p: string, pieces: seq<string>)
    requires |pieces| >= 1 && p == JoinWith(pieces, SEP)
    requires forall k :: 0 <= k < |pieces| ==> '/' !in pieces[k]
    ensures SplitOn(p, SEP) == pieces
  {
    SplitJoin(pieces, SEP);
  }

  lemma TraversalTail()
    ensures JoinWith(["..", "..", "etc", "passwd"], SEP) == "../../etc/passwd"
  {
    var pieces := ["..", "..", "etc", "passwd"];
    assert JoinWith(pieces[3..], SEP) == "passwd";
    assert JoinWith(pieces[2..], SEP) == "etc/passwd";
    assert JoinWith(pieces[1..], SEP) == "../etc/passwd";
  }

  lemma TraversalJoin()
    ensures JoinWith(["", "httptest", "..", "..", "etc", "passwd"], SEP) == "/httptest/../../etc/passwd"
  {
    var pieces := ["", "httptest", "..", "..", "etc", "passwd"];
    TraversalTail();
    assert pieces[2..] == ["..", "..", "etc", "passwd"];
    assert JoinWith(pieces[1..], SEP) == "httptest/../../etc/passwd";
  }

  lemma TraversalSplit()
    ensures SplitOn("/httptest/../../etc/passwd", SEP) == ["", "httptest", "..", "..", "etc", "passwd"]
  {
    var pieces := ["", "httptest", "..", "..", "etc", "passwd"];
    TraversalJoin();
    assert forall k :: 0 <= k < |pieces| ==> '/' !in pieces[k];
    SplitPieces("/httptest/../../etc/passwd", pieces);
  }

  lemma TraversalResolved()
    ensures NoSlash(["", "httptest", "..", "..", "etc", "passwd"])
    ensures Resolve([], ["", "httptest", "..", "..", "etc", "passwd"]) == ["etc", "passwd"]
  {
    var pieces := ["", "httptest", "..", "..", "etc", "passwd"];
    assert |"httptest"| > 2 && |"etc"| > 2 && |"passwd"| > 2;
    assert Resolve([], pieces) == Resolve(["httptest"], pieces[2..]);
    assert Resolve(["httptest"], pieces[2..]) == Resolve([], pieces[3..]);
    assert Resolve([], pieces[3..]) == Resolve([], pieces[4..]);
    assert Resolve([], pieces[4..]) == Resolve(["etc"], pieces[5..]);
  }

  /** `SAFE_DIR` is the normal form of the single component `httptest`. */
  lemma SafeDirCheck(targetUrl: string, cwd: string)
    requires IsAbs(cwd) && IsAbs(targetUrl)
    ensures NoSlash(SplitOn(targetUrl, SEP))
    ensures CheckSafeUrl(SAFE_DIR, targetUrl, cwd)
      <==> IsPrefix(["httptest"], Resolve([], SplitOn(targetUrl, SEP)))
  {
    SafeDirText();
    CheckSafeUrlIffPrefix(["httptest"], targetUrl, cwd);
  }

  lemma SafeDirText()
    ensures SAFE_DIR == "/" + JoinWith(["httptest"], SEP) && AllProper(["httptest"])
  {
    assert JoinWith(["httptest"], SEP) == "httptest";
  }

  /** A target that climbs out of the safe directory is refused. */
  lemma TraversalRefused(cwd: string)
    requires IsAbs(cwd)
    ensures !CheckSafeUrl(SAFE_DIR, "/httptest/../../etc/passwd", cwd)
  {
    TraversalSplit();
    TraversalResolved();
    EtcOutside();
    SafeDirVerdict("/httptest/../../etc/passwd", cwd,
      ["", "httptest", "..", "..", "etc", "passwd"], ["etc", "passwd"]);
  }

  lemma EtcOutside()
    ensures !IsPrefix(["httptest"], ["etc", "passwd"])
  {
    assert "etc" != "httptest" by { assert "etc"[0] != "httptest"[0]; }
    assert ["etc", "passwd"][..1] == ["etc"];
  }

  /** The verdict on an absolute target whose split and resolved components are known. */
  lemma SafeDirVerdict(t: string, cwd: string, pieces: seq<string>, resolved: seq<string>)
    requires IsAbs(cwd) && IsAbs(t)
    requires SplitOn(t, SEP) == pieces && NoSlash(pieces) && Resolve([], pieces) == resolved
    ensures CheckSafeUrl(SAFE_DIR, t, cwd) <==> IsPrefix(["httptest"], resolved)
  {
    SafeDirCheck(t, cwd);
  }

  lemma InnerDotDotJoin()
    ensures JoinWith(["", "httptest", "a", "..", "b"], SEP) == "/httptest/a/../b"
  {
    var pieces := ["", "httptest", "a", "..", "b"];
    assert JoinWith(pieces[4..], SEP) == "b";
    assert JoinWith(pieces[3..], SEP) == "../b";
    assert JoinWith(pieces[2..], SEP) == "a/../b";
    assert JoinWith(pieces[1..], SEP) == "httptest/a/../b";
  }

  lemma InnerDotDotSplit()
    ensures SplitOn("/httptest/a/../b", SEP) == ["", "httptest", "a", "..", "b"]
  {
    var pieces := ["", "httptest", "a", "..", "b"];
    InnerDotDotJoin();
    assert forall k :: 0 <= k < |pieces| ==> '/' !in pieces[k];
    SplitPieces("/httptest/a/../b", pieces);
  }

  lemma InnerDotDotResolved()
    ensures NoSlash(["", "httptest", "a", "..", "b"])
    ensures Resolve([], ["", "httptest", "a", "..", "b"]) == ["httptest", "b"]
  {
    var pieces := ["", "httptest", "a", "..", "b"];
    assert |"httptest"| > 2 && |"b"| == 1 && "b" != "." && "a" != ".";
    assert Resolve([], pieces) == Resolve(["httptest"], pieces[2..]);
    assert Resolve(["httptest"], pieces[2..]) == Resolve(["httptest", "a"], pieces[3..]);
    assert Resolve(["httptest", "a"], pieces[3..]) == Resolve(["httptest"], pieces[4..]);
  }

  /** A `..` that stays inside the safe directory is accepted. */
  lemma InnerDotDotAccepted(cwd: string)
    requires IsAbs(cwd)
    ensures CheckSafeUrl(SAFE_DIR, "/httptest/a/../b", cwd)
  {
    InnerDotDotSplit();
    InnerDotDotResolved();
    InsideHttptest();
    SafeDirVerdict("/httptest/a/../b", cwd, ["", "httptest", "a", "..", "b"], ["httptest", "b"]);
  }

  lemma InsideHttptest()
    ensures IsPrefix(["httptest"], ["httptest", "b"])
  {
    assert ["httptest", "b"][..1] == ["httptest"];
  }

  lemma SiblingComponents()
    ensures NoSlash(SplitOn("/httptestx", SEP))
    ensures Resolve([], SplitOn("/httptestx", SEP)) == ["httptestx"]
  {
    var pieces := ["", "httptestx"];
    SiblingSplit();
    assert |"httptestx"| > 2;
    assert Resolve([], pieces) == Resolve([], ["httptestx"]);
    assert Resolve([], ["httptestx"]) == Resolve(["httptestx"], []);
  }

  lemma SiblingSplit()
    ensures SplitOn("/httptestx", SEP) == ["", "httptestx"]
  {
    var pieces := ["", "httptestx"];
    assert JoinWith(pieces, SEP) == "/httptestx";
    assert forall k :: 0 <= k < |pieces| ==> '/' !in pieces[k];
    SplitPieces("/httptestx", pieces);
  }

  /** Components are compared whole: `/httptestx` is not inside `/httptest`. */
  lemma SiblingPrefixRefused(cwd: string)
    requires IsAbs(cwd)
    ensures !CheckSafeUrl(SAFE_DIR, "/httptestx", cwd)
  {
    SiblingComponents();
    assert "httptestx" != "httptest" by { assert |"httptestx"| != |"httptest"|; }
    assert !IsPrefix(["httptest"], ["httptestx"]) by {
      assert ["httptestx"][..1] == ["httptestx"];
    }
    SafeDirCheck("/httptestx", cwd);
  }

  /** A target naming proper components under `/httptest`, with or without a final `/`, passes the check. */
  lemma PlainTargetIsSafe(path: seq<string>, trail: string, cwd: string)
    requires AllProper(path) && path != [] && path[0] == "httptest"
    requires trail == "" || trail == "/"
    requires IsAbs(cwd)
    ensures CheckSafeUrl(SAFE_DIR, "/" + JoinWith(path, SEP) + trail, cwd)
  {
    var t := "/" + JoinWith(path, SEP) + trail;
    SafeDirCheck(t, cwd);
    if trail == "" {
      assert t == "/" + JoinWith(path, SEP);
      ResolveRooted("/", path);
    } else {
      ResolveRootedTrailing(path);
    }
    assert path[..1] == ["httptest"];
  }

  lemma QueryTraversalQuery()
    ensures JoinWith(["a.txt?", "..", "httptest"], SEP) == "a.txt?/../httptest"
  {
    var pieces := ["a.txt?", "..", "httptest"];
    assert JoinWith(pieces[2..], SEP) == "httptest";
    assert JoinWith(pieces[1..], SEP) == "../httptest";
  }

  lemma QueryTraversalUp()
    ensures JoinWith(["..", "..", "a.txt?", "..", "httptest"], SEP) == "../../a.txt?/../httptest"
  {
    var pieces := ["..", "..", "a.txt?", "..", "httptest"];
    QueryTraversalQuery();
    assert pieces[2..] == ["a.txt?", "..", "httptest"];
    assert JoinWith(pieces[1..], SEP) == "../a.txt?/../httptest";
  }

  lemma QueryTraversalInside()
    ensures JoinWith(["httptest", "..", "..", "a.txt?", "..", "httptest"], SEP) == "httptest/../../a.txt?/../httptest"
  {
    var pieces := ["httptest", "..", "..", "a.txt?", "..", "httptest"];
    QueryTraversalUp();
    assert pieces[1..] == ["..", "..", "a.txt?", "..", "httptest"];
  }

  lemma QueryTraversalJoin()
    ensures JoinWith(["", "httptest", "..", "..", "a.txt?", "..", "httptest"], SEP) == "/httptest/../../a.txt?/../httptest"
  {
    var inside := ["httptest", "..", "..", "a.txt?", "..", "httptest"];
    QueryTraversalInside();
    JoinLeadingEmpty(inside);
    assert [""] + inside == ["", "httptest", "..", "..", "a.txt?", "..", "httptest"];
    QueryTraversalRooted();
  }

  lemma QueryTraversalRooted()
    ensures "/" + "httptest/../../a.txt?/../httptest" == "/httptest/../../a.txt?/../httptest"
  {
  }

  /** A leading empty piece puts a separator in front of the join. */
  lemma JoinLeadingEmpty(rest: seq<string>)
    requires |rest| >= 1
    ensures JoinWith([""] + rest, SEP) == "/" + JoinWith(rest, SEP)
  {
    assert ([""] + rest)[1..] == rest;
  }

  lemma QueryTraversalSplit()
    ensures SplitOn("/httptest/../../a.txt?/../httptest", SEP) == ["", "httptest", "..", "..", "a.txt?", "..", "httptest"]
  {
    var pieces := ["", "httptest", "..", "..", "a.txt?", "..", "httptest"];
    QueryTraversalJoin();
    assert forall k :: 0 <= k < |pieces| ==> '/' !in pieces[k];
    SplitPieces("/httptest/../../a.txt?/../httptest", pieces);
  }

  lemma QueryTraversalResolved()
    ensures NoSlash(["", "httptest", "..", "..", "a.txt?", "..", "httptest"])
    ensures Resolve([], ["", "httptest", "..", "..", "a.txt?", "..", "httptest"]) == ["httptest"]
  {
    var pieces := ["", "httptest", "..", "..", "a.txt?", "..", "httptest"];
    assert |"httptest"| > 2 && |"a.txt?"| > 2;
    assert Resolve([], pieces) == Resolve(["httptest"], pieces[2..]);
    assert Resolve(["httptest"], pieces[2..]) == Resolve([], pieces[3..]);
    assert Resolve([], pieces[3..]) == Resolve([], pieces[4..]);
    assert Resolve([], pieces[4..]) == Resolve(["a.txt?"], pieces[5..]);
    assert Resolve(["a.txt?"], pieces[5..]) == Resolve([], pieces[6..]);
    assert Resolve([], pieces[6..]) == Resolve(["httptest"], []);
  }

  /**
   * The check normalises the query along with the path: a `..` after the
   * `?` cancels a component of the query, and the target passes.
   */
  lemma QueryTraversalAccepted(cwd: string)
    requires IsAbs(cwd)
    ensures CheckSafeUrl(SAFE_DIR, "/httptest/../../a.txt?/../httptest", cwd)
  {
    QueryTraversalSplit();
    QueryTraversalResolved();
    SafeDirCheck("/httptest/../../a.txt?/../httptest", cwd);
  }
}
