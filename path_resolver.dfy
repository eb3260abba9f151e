/**
 * How `handle_connection` turns a request target into a file under the
 * document root (htttpd.py): strip the target, join it to the root, turn
 * `%20` into spaces, serve `index.html` for a directory, and give up on
 * what is not a regular file.
 */
module PathResolver {
  import opened Wrappers
  import opened Bytes
  import opened Seqs
  import opened PosixPath
  import opened PurePaths

  /** `s.partition(c)[-1]`: what follows the first `c`, or `""` when `c` does not occur. */
  function AfterFirst(s: string, c: char): (r: string)
    ensures c !in s ==> r == ""
    ensures forall i :: 0 <= i < |s| && s[i] == c && c !in s[..i] ==> r == s[i + 1..]
    decreases |s|
  {
    if s == [] then ""
    else if s[0] == c then
      assert forall i :: 0 < i < |s| ==> s[..i][0] == c;
      s[1..]
    else
      assert forall i :: 0 < i <= |s| ==> s[..i][1..] == s[1..][..i - 1];
      AfterFirst(s[1..], c)
  }

  /** `s.partition(c)[0]`: what precedes the first `c`, or all of `s`. */
  function BeforeFirst(s: string, c: char): (r: string)
    ensures c !in r
    ensures |r| <= |s| && r == s[..|r|]
    ensures |r| == |s| || s[|r|] == c
    decreases |s|
  {
    if s == [] || s[0] == c then ""
    else [s[0]] + BeforeFirst(s[1..], c)
  }

  /**
   * `target.partition("/")[-1].partition("?")[0]`: the text between the
   * first `/` and the first `?` after it.
   */
  function StripTarget(target: string): (r: string)
    ensures '?' !in r
    ensures '/' !in target ==> r == ""
  {
    BeforeFirst(AfterFirst(target, '/'), '?')
  }

  /**
   * When the first `/` of the target is at `i`, the stripped target is what
   * follows it up to the first `?` (or the end).
   */
  lemma StripTargetAfterSlash(target: string, i: nat)
    requires i < |target| && target[i] == '/' && '/' !in target[..i]
    ensures var r := StripTarget(target);
      |r| <= |target| - i - 1 && r == target[i + 1..i + 1 + |r|]
      && (|r| == |target| - i - 1 || target[i + 1 + |r|] == '?')
  {
    var rest := AfterFirst(target, '/');
    assert rest == target[i + 1..];
    var r := BeforeFirst(rest, '?');
    SliceOfSuffix(target, i + 1, |r|);
  }

  lemma SliceOfSuffix(s: string, j: nat, n: nat)
    requires j + n <= |s|
    ensures s[j..][..n] == s[j..j + n]
    ensures n < |s| - j ==> s[j..][n] == s[j + n]
  {
  }

  /** The text `%20` starts at index `i` of `s`. */
  predicate EncodedSpaceAt(s: string, i: int) {
    0 <= i && i + 3 <= |s| && s[i] == '%' && s[i + 1] == '2' && s[i + 2] == '0'
  }

  /**
   * `s.replace("%20", " ")`: occurrences are replaced from left to right
   * without overlapping. The result holds no `%20`, and a character of the
   * result that is not a space is the character at the same place in `s`
   * for the first two places.
   */
  function ReplaceEncodedSpaces(s: string): (r: string)
    ensures |r| <= |s|
    ensures forall i :: !EncodedSpaceAt(r, i)
    ensures |r| > 0 && r[0] != ' ' ==> |s| > 0 && r[0] == s[0]
    ensures |r| > 1 && r[0] != ' ' && r[1] != ' ' ==> |s| > 1 && r[1] == s[1]
    ensures '%' !in s ==> r == s
    decreases |s|
  {
    if s == [] then []
    else if |s| >= 3 && s[0] == '%' && s[1] == '2' && s[2] == '0' then
      var rest := ReplaceEncodedSpaces(s[3..]);
      assert forall i :: 1 <= i ==> (EncodedSpaceAt([' '] + rest, i) ==> EncodedSpaceAt(rest, i - 1));
      [' '] + rest
    else
      var rest := ReplaceEncodedSpaces(s[1..]);
      assert forall i :: 1 <= i ==> (EncodedSpaceAt([s[0]] + rest, i) ==> EncodedSpaceAt(rest, i - 1));
      [s[0]] + rest
  }

  /**
   * The replacement is Python's `"%20"` split followed by a join with
   * single spaces: every `%20`, taken from left to right without overlap,
   * becomes one space, and every other character is kept in order.
   */
  lemma {:induction false} ReplaceIsSplitJoin(s: string)
    ensures ReplaceEncodedSpaces(s) == JoinWith(SplitOn(s, "%20"), " ")
    decreases |s|
  {
    if s == [] {
      assert IndexOf(s, "%20") == None;
    } else if EncodedSpaceAt(s, 0) {
      ReplaceIsSplitJoin(s[3..]);
      ReplaceEncodedStep(s);
    } else {
      ReplaceIsSplitJoin(s[1..]);
      ReplacePlainStep(s);
    }
  }

  lemma ReplaceEncodedStep(s: string)
    requires EncodedSpaceAt(s, 0)
    requires ReplaceEncodedSpaces(s[3..]) == JoinWith(SplitOn(s[3..], "%20"), " ")
    ensures ReplaceEncodedSpaces(s) == JoinWith(SplitOn(s, "%20"), " ")
  {
    assert ReplaceEncodedSpaces(s) == " " + ReplaceEncodedSpaces(s[3..]);
    assert s == [] + "%20" + s[3..];
    SplitFirst([], "%20", s[3..]);
    JoinEmptyFirst(SplitOn(s[3..], "%20"), " ");
  }

  lemma NoEncodedSpaceAtStart(s: string)
    requires !EncodedSpaceAt(s, 0)
    ensures !OccursAt(s, "%20", 0)
  {
    if 3 <= |s| {
      var head := s[0..3];
      assert head[0] == s[0] && head[1] == s[1] && head[2] == s[2];
      assert "%20"[0] == '%' && "%20"[1] == '2' && "%20"[2] == '0';
    }
  }

  lemma ReplacePlainStep(s: string)
    requires s != [] && !EncodedSpaceAt(s, 0)
    requires ReplaceEncodedSpaces(s[1..]) == JoinWith(SplitOn(s[1..], "%20"), " ")
    ensures ReplaceEncodedSpaces(s) == JoinWith(SplitOn(s, "%20"), " ")
  {
    assert ReplaceEncodedSpaces(s) == [s[0]] + ReplaceEncodedSpaces(s[1..]);
    NoEncodedSpaceAtStart(s);
    assert s == [s[0]] + s[1..];
    SplitCons(s[0], s[1..], "%20");
    JoinPrepend(s[0], SplitOn(s[1..], "%20"), " ");
  }

  /** What the file system holds at a location. */
  datatype Node = File(content: seq<byte>) | Directory

  /**
   * The file system, keyed by the location of each entry: the components
   * of its absolute path. The root `[]` is always a directory.
   */
  type FileSystem = map<seq<string>, Node>

  /** The root, or an entry that is a directory. */
  predicate DirAt(fs: FileSystem, l: seq<string>) {
    l == [] || (l in fs && fs[l].Directory?)
  }

  /** An entry that is a regular file. */
  predicate FileAt(fs: FileSystem, l: seq<string>) {
    l != [] && l in fs && fs[l].File?
  }

  /** A file system as one exists on disk: the parent of every entry is a directory. */
  predicate IsTree(fs: FileSystem) {
    forall l :: l in fs && l != [] ==> DirAt(fs, l[..|l| - 1])
  }

  /**
   * The lookup `stat` performs, one component at a time from the directory
   * `at`: empty and `.` components stay, `..` goes to the parent (the root
   * is its own parent), and any other component must be an entry, and a
   * directory whenever more components follow it. A missing entry
   * (`ENOENT`) or a non-directory with components after it (`ENOTDIR`)
   * makes the lookup fail. Where it succeeds, it lands where the
   * normalisation loop `Resolve` does.
   */
  function Walk(fs: FileSystem, at: seq<string>, comps: seq<string>): (r: Option<seq<string>>)
    requires AllProper(at) && NoSlash(comps)
    ensures r.Some? ==> r.value == Resolve(at, comps)
    decreases |comps|
  {
    if comps == [] then Some(at)
    else
      var c := comps[0];
      if c == "" || c == "." then Walk(fs, at, comps[1..])
      else if c == ".." then Walk(fs, if at == [] then [] else at[..|at| - 1], comps[1..])
      else if at + [c] !in fs then None
      else if |comps| > 1 && !fs[at + [c]].Directory? then None
      else Walk(fs, at + [c], comps[1..])
  }

  /** The location `stat(p)` reaches, relative paths taken from `cwd`; `None` when the lookup fails. */
  function Lookup(fs: FileSystem, cwd: string, p: PurePath): Option<seq<string>>
    requires IsAbs(cwd)
  {
    SplitNoSlash(Absolute(cwd, ToString(p)));
    Walk(fs, [], SplitOn(Absolute(cwd, ToString(p)), SEP))
  }

  /** The location a path names once `..` has been applied to its text, as `os.path.abspath` does. */
  function Locate(cwd: string, p: PurePath): seq<string>
    requires IsAbs(cwd)
  {
    PathComponents(AbsPath(cwd, ToString(p)))
  }

  /** `p.is_dir()`: the lookup succeeds and lands on a directory. */
  predicate IsDir(fs: FileSystem, cwd: string, p: PurePath)
    requires IsAbs(cwd)
  {
    Lookup(fs, cwd, p).Some? && DirAt(fs, Lookup(fs, cwd, p).value)
  }

  /** `p.is_file()`: the lookup succeeds and lands on a regular file. */
  predicate IsFile(fs: FileSystem, cwd: string, p: PurePath)
    requires IsAbs(cwd)
  {
    Lookup(fs, cwd, p).Some? && FileAt(fs, Lookup(fs, cwd, p).value)
  }

  /** `p.read_bytes()`; `p.stat().st_size` is its length. */
  function ReadBytes(fs: FileSystem, cwd: string, p: PurePath): seq<byte>
    requires IsAbs(cwd) && IsFile(fs, cwd, p)
  {
    fs[Lookup(fs, cwd, p).value].content
  }

  /** A lookup that succeeds lands on the location the text of the path names. */
  lemma LookupLocates(fs: FileSystem, cwd: string, p: PurePath)
    requires IsAbs(cwd)
    ensures Lookup(fs, cwd, p).Some? ==> Lookup(fs, cwd, p).value == Locate(cwd, p)
  {
    LocateResolves(cwd, p);
  }

  /** In a tree, every directory above an entry is a directory. */
  lemma {:induction false} AncestorsAreDirs(fs: FileSystem, l: seq<string>, k: nat)
    requires IsTree(fs) && l in fs && k < |l|
    ensures DirAt(fs, l[..k])
    decreases |l|
  {
    var parent := l[..|l| - 1];
    assert DirAt(fs, parent);
    if k < |l| - 1 {
      AncestorsAreDirs(fs, parent, k);
      assert parent[..k] == l[..k];
    }
  }

  /** In a tree, walking down proper components from a directory reaches every entry below it. */
  lemma {:induction false} WalkDown(fs: FileSystem, at: seq<string>, cs: seq<string>)
    requires IsTree(fs) && AllProper(at) && AllProper(cs) && cs != [] && at + cs in fs
    ensures Walk(fs, at, cs) == Some(at + cs)
    decreases |cs|
  {
    var next := at + [cs[0]];
    assert (at + cs)[..|at| + 1] == next;
    if |cs| > 1 {
      AncestorsAreDirs(fs, at + cs, |at| + 1);
      assert next + cs[1..] == at + cs;
      WalkDown(fs, next, cs[1..]);
    } else {
      assert next == at + cs;
    }
  }

  /** In a tree, a rooted path of proper components is looked up at exactly those components. */
  lemma LookupRooted(fs: FileSystem, cwd: string, cs: seq<string>)
    requires IsTree(fs) && IsAbs(cwd) && AllProper(cs) && cs != [] && cs in fs
    ensures Lookup(fs, cwd, PurePath("/", cs)) == Some(cs)
  {
    RootedPieces(cwd, cs);
    WalkLeadingEmpty(fs, cs);
    assert [] + cs == cs;
    WalkDown(fs, [], cs);
  }

  /** The pieces of a rooted path of proper components, with the working directory left unused. */
  lemma RootedPieces(cwd: string, cs: seq<string>)
    requires IsAbs(cwd) && AllProper(cs) && cs != []
    ensures SplitOn(Absolute(cwd, ToString(PurePath("/", cs))), SEP) == [""] + cs
  {
    assert ToString(PurePath("/", cs)) == "/" + JoinWith(cs, SEP);
    SplitRooted("/", cs);
  }

  /** The empty piece before a leading `/` leaves the lookup at the root. */
  lemma WalkLeadingEmpty(fs: FileSystem, cs: seq<string>)
    requires NoSlash(cs)
    ensures NoSlash([""] + cs)
    ensures Walk(fs, [], [""] + cs) == Walk(fs, [], cs)
  {
    assert ([""] + cs)[1..] == cs;
  }

  /** One step of the lookup into an entry, which is a directory unless it is the last component. */
  lemma WalkInto(fs: FileSystem, at: seq<string>, c: string, rest: seq<string>)
    requires AllProper(at) && Proper(c) && NoSlash(rest)
    requires at + [c] in fs && (rest == [] || fs[at + [c]].Directory?)
    ensures AllProper(at + [c]) && NoSlash([c] + rest)
    ensures Walk(fs, at, [c] + rest) == Walk(fs, at + [c], rest)
  {
    assert ([c] + rest)[1..] == rest;
  }

  /** One `..` step of the lookup, from a directory below the root to its parent. */
  lemma WalkUp(fs: FileSystem, at: seq<string>, rest: seq<string>)
    requires AllProper(at) && at != [] && NoSlash(rest)
    ensures NoSlash([".."] + rest)
    ensures Walk(fs, at, [".."] + rest) == Walk(fs, at[..|at| - 1], rest)
  {
    assert ([".."] + rest)[1..] == rest;
  }

  /** A path whose text names a regular file is not a directory, whether or not its lookup succeeds. */
  lemma FileIsNotDir(fs: FileSystem, cwd: string, p: PurePath)
    requires IsAbs(cwd) && Locate(cwd, p) != [] && Locate(cwd, p) in fs && fs[Locate(cwd, p)].File?
    ensures !IsDir(fs, cwd, p)
  {
    var r := Lookup(fs, cwd, p);
    LookupLocates(fs, cwd, p);
    assert r.None? || FileAt(fs, r.value);
  }

  /**
   * `..` after a component that is missing, or that is not a directory,
   * makes the lookup fail, although the text normalises the pair away.
   */
  lemma DotDotThroughNonDirectory(fs: FileSystem, at: seq<string>, c: string, rest: seq<string>)
    requires AllProper(at) && Proper(c) && NoSlash(rest)
    requires at + [c] !in fs || !fs[at + [c]].Directory?
    ensures NoSlash([c, ".."] + rest)
    ensures Walk(fs, at, [c, ".."] + rest) == None
    ensures Resolve(at, [c, ".."] + rest) == Resolve(at, rest)
  {
    var comps := [c, ".."] + rest;
    assert comps[1..] == [".."] + rest && ([".."] + rest)[1..] == rest;
    assert (at + [c])[..|at|] == at;
  }

  /** Looking up a path the text of which names a location missing from the file system fails to find an entry there. */
  lemma LookupMissing(fs: FileSystem, cwd: string, p: PurePath)
    requires IsAbs(cwd) && Locate(cwd, p) != [] && Locate(cwd, p) !in fs
    ensures !IsDir(fs, cwd, p) && !IsFile(fs, cwd, p)
  {
    LookupLocates(fs, cwd, p);
  }

  predicate EndsWithSlash(s: string) {
    |s| > 0 && s[|s| - 1] == '/'
  }

  /**
   * The path built from the target before the file system is consulted:
   * `Path(str(Path(os.path.join(document_root, target))).replace("%20", " "))`
   * with `target` already stripped.
   */
  function TargetPath(documentRoot: string, target: string): (p: PurePath)
    ensures WellFormed(p)
  {
    var joined := Parse(Join(documentRoot, StripTarget(target)));
    Parse(ReplaceEncodedSpaces(ToString(joined)))
  }

  datatype Resolution = Found(path: PurePath) | Missing

  /**
   * A directory is served through its `index.html`; a stripped target ending
   * in `/` that is not a directory is not found; otherwise the path must be a
   * regular file.
   */
  function ResolveTarget(documentRoot: string, target: string, cwd: string, fs: FileSystem): (r: Resolution)
    requires IsAbs(cwd)
    ensures r.Found? ==> WellFormed(r.path) && IsFile(fs, cwd, r.path)
    ensures r.Found? ==>
      IsPart("index.html") &&
      (r.path == TargetPath(documentRoot, target) || r.path == Child(TargetPath(documentRoot, target), "index.html"))
  {
    IndexIsPart();
    var path := TargetPath(documentRoot, target);
    if IsDir(fs, cwd, path) then
      var index := Child(path, "index.html");
      if IsFile(fs, cwd, index) then Found(index) else Missing
    else if EndsWithSlash(StripTarget(target)) then Missing
    else if IsFile(fs, cwd, path) then Found(path)
    else Missing
  }

  /** A target of the form `/<path>` or `/<path>?<query>` strips to `<path>`. */
  lemma StripPlainTarget(path: string, query: string)
    requires '?' !in path && (query == "" || query[0] == '?')
    ensures StripTarget("/" + path + query) == path
  {
    var t := "/" + path + query;
    assert t[..0] == [];
    StripTargetAfterSlash(t, 0);
    var r := StripTarget(t);
    assert t[1..1 + |path|] == path;
    assert forall j :: 0 <= j < |path| ==> t[1 + j] == path[j];
  }

  /** No component holds a `%`, so no `%20` can be replaced. */
  predicate NoPercent(cs: seq<string>) {
    forall k :: 0 <= k < |cs| ==> '%' !in cs[k]
  }

  /** `Path` drops the slash that ends a path. */
  lemma ParseTrailingSlash(cs: seq<string>)
    requires AllProper(cs) && cs != []
    ensures Parse("/" + JoinWith(cs, SEP) + "/") == PurePath("/", cs)
  {
    TrailingRoot(cs);
    TrailingPieces(cs);
    DropAppend(cs, [""]);
    DropProper(cs);
  }

  lemma TrailingRoot(cs: seq<string>)
    requires AllProper(cs) && cs != []
    ensures SplitRoot("/" + JoinWith(cs, SEP) + "/") == ("/", JoinWith(cs, SEP) + "/")
  {
    var j := JoinWith(cs, SEP);
    JoinStartsWithComponent(cs);
    var s := "/" + j + "/";
    assert s[1] == j[0] == cs[0][0];
    assert Proper(cs[0]) && cs[0][0] in cs[0];
    assert s[1..] == j + "/";
  }

  lemma TrailingPieces(cs: seq<string>)
    requires AllProper(cs) && cs != []
    ensures SplitOn(JoinWith(cs, SEP) + "/", SEP) == cs + [""]
  {
    JoinWithAppend(cs, [""], SEP);
    assert JoinWith([""], SEP) == "";
    assert JoinWith(cs + [""], SEP) == JoinWith(cs, SEP) + "/";
    assert forall k :: 0 <= k < |cs + [""]| ==> Avoids((cs + [""])[k], SEP);
    SplitJoin(cs + [""], SEP);
  }

  /** `os.path.join` of a normal document root and a relative target made of proper components. */
  lemma JoinRootTarget(root: seq<string>, path: seq<string>, trail: string)
    requires AllProper(root) && AllProper(path) && root != [] && path != []
    requires trail == "" || trail == "/"
    ensures AllProper(root + path)
    ensures Join("/" + JoinWith(root, SEP), JoinWith(path, SEP) + trail) == "/" + JoinWith(root + path, SEP) + trail
  {
    var a, b := JoinWith(root, SEP), JoinWith(path, SEP);
    JoinStartsWithComponent(path);
    JoinEndsWithComponent(root);
    AppendEnds(a, b, trail);
    JoinRelative("/" + a, b + trail);
    JoinWithAppend(root, path, SEP);
    assert forall k :: 0 <= k < |root + path| ==> (root + path)[k] == (if k < |root| then root[k] else path[k - |root|]);
    assert "/" + a + SEP + (b + trail) == "/" + (a + SEP + b) + trail;
  }

  /** The first and last characters of concatenations, as `JoinRootTarget` needs them. */
  lemma AppendEnds(a: string, b: string, t: string)
    requires |a| > 0 && |b| > 0
    ensures ("/" + a)[|"/" + a| - 1] == a[|a| - 1]
    ensures |b + t| > 0 && (b + t)[0] == b[0]
  {
  }

  /** A rooted path of proper components, with or without a final `/`, parses to those components. */
  lemma ParseRooted(cs: seq<string>, trail: string)
    requires AllProper(cs) && cs != [] && (trail == "" || trail == "/")
    ensures Parse("/" + JoinWith(cs, SEP) + trail) == PurePath("/", cs)
  {
    var p := PurePath("/", cs);
    assert WellFormed(p);
    ParseToString(p);
    assert ToString(p) == "/" + JoinWith(cs, SEP);
    if trail == "/" {
      ParseTrailingSlash(cs);
    } else {
      assert "/" + JoinWith(cs, SEP) + trail == ToString(p);
    }
  }

  /** A rooted path of proper components without `%` is left alone by the `%20` replacement and located at its components. */
  lemma RootedLocation(cs: seq<string>, cwd: string)
    requires AllProper(cs) && cs != [] && NoPercent(cs) && IsAbs(cwd)
    ensures Parse(ReplaceEncodedSpaces(ToString(PurePath("/", cs)))) == PurePath("/", cs)
    ensures Locate(cwd, PurePath("/", cs)) == cs
  {
    var p := PurePath("/", cs);
    assert ToString(p) == "/" + JoinWith(cs, SEP);
    assert Avoids(ToString(p), "%") by {
      assert forall k :: 0 <= k < |cs| ==> Avoids(cs[k], "%");
      JoinAvoids(cs, SEP, "%");
    }
    assert ReplaceEncodedSpaces(ToString(p)) == ToString(p);
    ParseRooted(cs, "");
    NormPathComponents(ToString(p));
    ResolveRooted("/", cs);
  }

  /**
   * A document root in normal form and a stripped target made of proper
   * components (no `%`), with or without a final `/`, give the path of the
   * root's components followed by the target's, at exactly that location.
   */
  lemma PlainTargetPath(root: seq<string>, path: seq<string>, trail: string, target: string, cwd: string)
    requires AllProper(root) && AllProper(path) && root != [] && path != []
    requires NoPercent(root) && NoPercent(path)
    requires trail == "" || trail == "/"
    requires StripTarget(target) == JoinWith(path, SEP) + trail
    requires IsAbs(cwd)
    ensures TargetPath("/" + JoinWith(root, SEP), target) == PurePath("/", root + path)
    ensures Locate(cwd, PurePath("/", root + path)) == root + path
  {
    var cs := root + path;
    JoinRootTarget(root, path, trail);
    ParseRooted(cs, trail);
    assert NoPercent(cs) by {
      assert forall k :: 0 <= k < |cs| ==> cs[k] == (if k < |root| then root[k] else path[k - |root|]);
    }
    RootedLocation(cs, cwd);
  }

  /** The location of a path is `Resolve` over the pieces of its absolute form. */
  lemma LocateResolves(cwd: string, p: PurePath)
    requires IsAbs(cwd)
    ensures NoSlash(SplitOn(Absolute(cwd, ToString(p)), SEP))
    ensures Locate(cwd, p) == Resolve([], SplitOn(Absolute(cwd, ToString(p)), SEP))
  {
    NormPathComponents(Absolute(cwd, ToString(p)));
  }

  /** `p / name` is located one component below `p`, for a name that is a proper component. */
  lemma LocateChild(cwd: string, p: PurePath, name: string)
    requires IsAbs(cwd) && WellFormed(p) && Proper(name)
    ensures Locate(cwd, Child(p, name)) == Locate(cwd, p) + [name]
  {
    LocateResolves(cwd, p);
    LocateResolves(cwd, Child(p, name));
    if p.parts != [] {
      ChildOfParts(cwd, p, name);
    } else if p.root != "" {
      ChildOfRoot(cwd, p, name);
    } else {
      ChildOfDot(cwd, p, name);
    }
  }

  lemma ChildOfParts(cwd: string, p: PurePath, name: string)
    requires IsAbs(cwd) && WellFormed(p) && Proper(name) && p.parts != []
    ensures NoSlash(SplitOn(Absolute(cwd, ToString(p)), SEP))
    ensures NoSlash(SplitOn(Absolute(cwd, ToString(Child(p, name))), SEP))
    ensures Resolve([], SplitOn(Absolute(cwd, ToString(Child(p, name))), SEP))
      == Resolve([], SplitOn(Absolute(cwd, ToString(p)), SEP)) + [name]
  {
    var q := Child(p, name);
    assert q.parts == p.parts + [name];
    JoinWithAppend(p.parts, [name], SEP);
    assert ToString(q) == ToString(p) + SEP + name;
    if p.root == "" {
      JoinPartsStart(p.parts);
      JoinRelative(cwd, ToString(p));
      JoinRelative(cwd, ToString(q));
    }
    assert Absolute(cwd, ToString(q)) == Absolute(cwd, ToString(p)) + SEP + name;
    ResolveExtended(Absolute(cwd, ToString(p)), name);
  }

  lemma ChildOfRoot(cwd: string, p: PurePath, name: string)
    requires IsAbs(cwd) && WellFormed(p) && Proper(name) && p.parts == [] && p.root != ""
    ensures NoSlash(SplitOn(Absolute(cwd, ToString(p)), SEP))
    ensures NoSlash(SplitOn(Absolute(cwd, ToString(Child(p, name))), SEP))
    ensures Resolve([], SplitOn(Absolute(cwd, ToString(Child(p, name))), SEP))
      == Resolve([], SplitOn(Absolute(cwd, ToString(p)), SEP)) + [name]
  {
    var base := p.root[..|p.root| - 1];
    assert ToString(Child(p, name)) == base + SEP + name;
    ResolveExtended(base, name);
    assert ToString(p) == p.root + JoinWith([], SEP);
    ResolveRooted(p.root, []);
    if p.root == "/" {
      assert SplitOn(base, SEP) == [""];
      assert Resolve([], [""]) == [];
    } else {
      assert base == "/" + JoinWith([], SEP);
      ResolveRooted("/", []);
    }
  }

  lemma ChildOfDot(cwd: string, p: PurePath, name: string)
    requires IsAbs(cwd) && WellFormed(p) && Proper(name) && p.parts == [] && p.root == ""
    ensures NoSlash(SplitOn(Absolute(cwd, ToString(p)), SEP))
    ensures NoSlash(SplitOn(Absolute(cwd, ToString(Child(p, name))), SEP))
    ensures Resolve([], SplitOn(Absolute(cwd, ToString(Child(p, name))), SEP))
      == Resolve([], SplitOn(Absolute(cwd, ToString(p)), SEP)) + [name]
  {
    assert ToString(p) == "." && ToString(Child(p, name)) == name;
    JoinRelative(cwd, ".");
    JoinRelative(cwd, name);
    var base := if cwd[|cwd| - 1] == '/' then cwd[..|cwd| - 1] else cwd;
    ResolveExtended(base, name);
    ResolveDot(base);
  }

  /** A target whose path is a regular file, and which does not end in `/`, resolves to that file. */
  lemma ResolvesFile(documentRoot: string, target: string, cwd: string, fs: FileSystem, path: PurePath)
    requires IsAbs(cwd) && TargetPath(documentRoot, target) == path
    requires IsFile(fs, cwd, path)
    requires !EndsWithSlash(StripTarget(target))
    ensures ResolveTarget(documentRoot, target, cwd, fs) == Found(path)
  {
  }

  /** A target whose path is a directory holding a regular `index.html` resolves to that file. */
  lemma ResolvesIndex(documentRoot: string, target: string, cwd: string, fs: FileSystem, path: PurePath)
    requires IsAbs(cwd) && TargetPath(documentRoot, target) == path
    requires IsDir(fs, cwd, path)
    requires IsPart("index.html")
    requires IsFile(fs, cwd, Child(path, "index.html"))
    ensures ResolveTarget(documentRoot, target, cwd, fs) == Found(Child(path, "index.html"))
  {
  }

  /** A target ending in `/` whose path is not a directory (a regular file, say) resolves to nothing. */
  lemma ResolvesSlashOnFile(documentRoot: string, target: string, cwd: string, fs: FileSystem, path: PurePath)
    requires IsAbs(cwd) && TargetPath(documentRoot, target) == path
    requires !IsDir(fs, cwd, path)
    requires EndsWithSlash(StripTarget(target))
    ensures ResolveTarget(documentRoot, target, cwd, fs) == Missing
  {
  }
}
