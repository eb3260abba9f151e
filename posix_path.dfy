/**
 * The parts of Python's `os.path` (module `posixpath`) that the server
 * relies on: `isabs`, `join`, `normpath`, `abspath` and `commonpath`.
 */
module PosixPath {
  import opened Seqs

  const SEP: string := "/"

  /** `os.path.isabs(p)`. */
  predicate IsAbs(p: string) {
    |p| > 0 && p[0] == '/'
  }

  /** `os.path.join(a, b)`: an absolute `b` discards `a`. */
  function Join(a: string, b: string): (r: string)
    ensures IsAbs(b) ==> r == b
    ensures !IsAbs(b) ==> |r| >= |a| + |b| && r[..|a|] == a && r[|r| - |b|..] == b
    ensures IsAbs(a) || IsAbs(b) ==> IsAbs(r)
  {
    if IsAbs(b) then b
    else if a == [] || a[|a| - 1] == '/' then a + b
    else a + SEP + b
  }

  /** A path component that survives normalisation: not empty, not `.` or `..`, without `/`. */
  predicate Proper(c: string) {
    c != "" && c != "." && c != ".." && '/' !in c
  }

  predicate AllProper(cs: seq<string>) {
    forall k :: 0 <= k < |cs| ==> Proper(cs[k])
  }

  predicate NoSlash(cs: seq<string>) {
    forall k :: 0 <= k < |cs| ==> '/' !in cs[k]
  }

  /**
   * The loop of `normpath` for an absolute path: empty and `.` components
   * are skipped, `..` removes the last kept component (and is dropped at the
   * root, whose parent is itself), any other component is kept.
   */
  function Resolve(stack: seq<string>, comps: seq<string>): (r: seq<string>)
    requires AllProper(stack) && NoSlash(comps)
    ensures AllProper(r)
    decreases |comps|
  {
    if comps == [] then stack
    else
      var c := comps[0];
      if c == "" || c == "." then Resolve(stack, comps[1..])
      else if c == ".." then Resolve(if stack == [] then [] else stack[..|stack| - 1], comps[1..])
      else Resolve(stack + [c], comps[1..])
  }

  lemma SplitNoSlash(s: string)
    ensures NoSlash(SplitOn(s, SEP))
  {
    var parts := SplitOn(s, SEP);
    SplitPiecesAvoid(s, SEP);
    forall k, i | 0 <= k < |parts| && 0 <= i < |parts[k]| ensures parts[k][i] != '/' {
      assert !OccursAt(parts[k], SEP, i);
      assert parts[k][i..i + 1] == [parts[k][i]];
    }
  }

  /** POSIX keeps exactly two leading slashes; one, or three and more, become one. */
  function LeadingSlashes(p: string): string
    requires IsAbs(p)
  {
    if |p| >= 2 && p[1] == '/' && !(|p| >= 3 && p[2] == '/') then "//" else "/"
  }

  /** `os.path.normpath(p)` for an absolute path. */
  function NormPath(p: string): (r: string)
    requires IsAbs(p)
    ensures IsAbs(r)
  {
    SplitNoSlash(p);
    LeadingSlashes(p) + JoinWith(Resolve([], SplitOn(p, SEP)), SEP)
  }

  /** The path `abspath` normalises: `p` itself, or `p` joined to the working directory `cwd`. */
  function Absolute(cwd: string, p: string): (r: string)
    requires IsAbs(cwd)
    ensures IsAbs(r)
    ensures IsAbs(p) ==> r == p
  {
    if IsAbs(p) then p else Join(cwd, p)
  }

  /** `os.path.abspath(p)`, with the working directory `cwd` (`os.getcwd()`) given. */
  function AbsPath(cwd: string, p: string): (r: string)
    requires IsAbs(cwd)
    ensures IsAbs(r)
  {
    NormPath(Absolute(cwd, p))
  }

  /** `[c for c in parts if c and c != '.']`. */
  function DropEmptyAndDot(parts: seq<string>): (r: seq<string>)
    ensures forall k :: 0 <= k < |r| ==> r[k] != "" && r[k] != "."
    ensures NoSlash(parts) ==> NoSlash(r)
    decreases |parts|
  {
    if parts == [] then []
    else (if parts[0] == "" || parts[0] == "." then [] else [parts[0]]) + DropEmptyAndDot(parts[1..])
  }

  /** The components `commonpath` compares: the non-empty, non-`.` pieces between slashes. */
  function PathComponents(p: string): seq<string> {
    DropEmptyAndDot(SplitOn(p, SEP))
  }

  predicate IsPrefix<T(==)>(a: seq<T>, b: seq<T>) {
    |a| <= |b| && b[..|a|] == a
  }

  /** The longest common prefix of two component lists. */
  function CommonPrefix(a: seq<string>, b: seq<string>): (r: seq<string>)
    ensures IsPrefix(r, a) && IsPrefix(r, b)
    ensures |r| == |a| || |r| == |b| || a[|r|] != b[|r|]
    decreases |a|
  {
    if a == [] || b == [] || a[0] != b[0] then []
    else
      var rest := CommonPrefix(a[1..], b[1..]);
      assert a[..|rest| + 1] == [a[0]] + a[1..][..|rest|];
      assert b[..|rest| + 1] == [b[0]] + b[1..][..|rest|];
      [a[0]] + rest
  }

  /** `os.path.commonpath([a, b])` for two absolute paths. */
  function CommonPath(a: string, b: string): (r: string)
    requires IsAbs(a) && IsAbs(b)
    ensures IsAbs(r)
  {
    "/" + JoinWith(CommonPrefix(PathComponents(a), PathComponents(b)), SEP)
  }

  lemma {:induction false} DropProper(cs: seq<string>)
    requires AllProper(cs)
    ensures DropEmptyAndDot(cs) == cs
    decreases |cs|
  {
    if cs != [] {
      DropProper(cs[1..]);
    }
  }

  lemma {:induction false} DropAppend(a: seq<string>, b: seq<string>)
    ensures DropEmptyAndDot(a + b) == DropEmptyAndDot(a) + DropEmptyAndDot(b)
    decreases |a|
  {
    if a == [] {
      assert a + b == b;
    } else {
      assert (a + b)[1..] == a[1..] + b;
      DropAppend(a[1..], b);
    }
  }

  lemma DropEmptyCons(x: seq<string>)
    ensures DropEmptyAndDot([""] + x) == DropEmptyAndDot(x)
  {
    assert ([""] + x)[1..] == x;
  }

  lemma ProperAvoidsSep(cs: seq<string>)
    requires AllProper(cs)
    ensures forall k :: 0 <= k < |cs| ==> Avoids(cs[k], SEP)
  {
  }

  /** How a root of one or two slashes followed by proper components splits at the slashes. */
  lemma SplitRooted(root: string, cs: seq<string>)
    requires root == "/" || root == "//"
    requires AllProper(cs)
    ensures SplitOn(root + JoinWith(cs, SEP), SEP)
      == (if root == "/" then [""] else ["", ""]) + (if cs == [] then [""] else cs)
  {
    var j := JoinWith(cs, SEP);
    ProperAvoidsSep(cs);
    var tail := if root == "/" then j else SEP + j;
    assert root + j == "" + SEP + tail;
    SplitFirst("", SEP, tail);
    if root == "//" {
      assert tail == "" + SEP + j;
      SplitFirst("", SEP, j);
    }
    if cs == [] {
      SplitNone(j, SEP);
    } else {
      SplitJoin(cs, SEP);
    }
  }

  /** A root of one or two slashes followed by proper components has exactly those components. */
  lemma RootedComponents(root: string, cs: seq<string>)
    requires root == "/" || root == "//"
    requires AllProper(cs)
    ensures PathComponents(root + JoinWith(cs, SEP)) == cs
  {
    SplitRooted(root, cs);
    var rest := if cs == [] then [""] else cs;
    DropProper(cs);
    assert DropEmptyAndDot([""]) == [];
    DropEmptyCons(rest);
    DropEmptyCons([""] + rest);
  }

  /** The `normpath` loop keeps exactly the components of a rooted normal path. */
  lemma ResolveRooted(root: string, cs: seq<string>)
    requires root == "/" || root == "//"
    requires AllProper(cs)
    ensures NoSlash(SplitOn(root + JoinWith(cs, SEP), SEP))
    ensures Resolve([], SplitOn(root + JoinWith(cs, SEP), SEP)) == cs
  {
    SplitRooted(root, cs);
    SplitNoSlash(root + JoinWith(cs, SEP));
    var rest := if cs == [] then [""] else cs;
    if cs == [] {
      ResolveLeadingEmpty([]);
      assert [""] + [] == [""];
    } else {
      ResolveProper([], cs);
    }
    ResolveLeadingEmpty(rest);
    if root == "//" {
      ResolveLeadingEmpty([""] + rest);
      assert ["", ""] + rest == [""] + ([""] + rest);
    }
  }

  /** An empty component, as after a leading `/`, is skipped. */
  lemma ResolveLeadingEmpty(rest: seq<string>)
    requires NoSlash(rest)
    ensures NoSlash([""] + rest)
    ensures Resolve([], [""] + rest) == Resolve([], rest)
  {
    assert ([""] + rest)[1..] == rest;
  }

  /** `normpath` produces exactly the components its loop keeps. */
  lemma NormPathComponents(p: string)
    requires IsAbs(p)
    ensures NoSlash(SplitOn(p, SEP))
    ensures PathComponents(NormPath(p)) == Resolve([], SplitOn(p, SEP))
  {
    SplitNoSlash(p);
    RootedComponents(LeadingSlashes(p), Resolve([], SplitOn(p, SEP)));
  }

  lemma {:induction false} ResolveProper(stack: seq<string>, cs: seq<string>)
    requires AllProper(stack) && AllProper(cs)
    ensures Resolve(stack, cs) == stack + cs
    decreases |cs|
  {
    if cs != [] {
      ResolveProper(stack + [cs[0]], cs[1..]);
      assert stack + [cs[0]] + cs[1..] == stack + cs;
    }
  }

  lemma JoinStartsWithComponent(cs: seq<string>)
    requires AllProper(cs) && cs != []
    ensures |JoinWith(cs, SEP)| > 0 && JoinWith(cs, SEP)[0] == cs[0][0]
  {
  }

  /** The `normpath` loop over `a + b` is the loop over `b` started where the loop over `a` ends. */
  lemma {:induction false} ResolveAppend(stack: seq<string>, a: seq<string>, b: seq<string>)
    requires AllProper(stack) && NoSlash(a) && NoSlash(b)
    ensures NoSlash(a + b)
    ensures Resolve(stack, a + b) == Resolve(Resolve(stack, a), b)
    decreases |a|
  {
    assert forall k :: 0 <= k < |a + b| ==> (a + b)[k] == if k < |a| then a[k] else b[k - |a|];
    if a == [] {
      assert a + b == b;
    } else {
      assert (a + b)[1..] == a[1..] + b;
      var c := a[0];
      var next := if c == "" || c == "." then stack
        else if c == ".." then (if stack == [] then [] else stack[..|stack| - 1])
        else stack + [c];
      assert AllProper(next);
      ResolveAppend(next, a[1..], b);
    }
  }

  lemma SplitRootedTrailing(cs: seq<string>)
    requires AllProper(cs) && cs != []
    ensures SplitOn("/" + JoinWith(cs, SEP) + "/", SEP) == [""] + (cs + [""])
  {
    var j := JoinWith(cs, SEP);
    ProperAvoidsSep(cs);
    assert "/" + j + "/" == "" + SEP + (j + "/");
    SplitFirst("", SEP, j + "/");
    JoinWithAppend(cs, [""], SEP);
    assert JoinWith([""], SEP) == "";
    assert JoinWith(cs + [""], SEP) == j + "/";
    assert forall k :: 0 <= k < |cs + [""]| ==> Avoids((cs + [""])[k], SEP);
    SplitJoin(cs + [""], SEP);
    assert SplitOn(j + "/", SEP) == cs + [""];
  }

  /** A rooted path of proper components with a final slash resolves to those components. */
  lemma ResolveRootedTrailing(cs: seq<string>)
    requires AllProper(cs) && cs != []
    ensures NoSlash(SplitOn("/" + JoinWith(cs, SEP) + "/", SEP))
    ensures Resolve([], SplitOn("/" + JoinWith(cs, SEP) + "/", SEP)) == cs
  {
    SplitRootedTrailing(cs);
    SplitNoSlash("/" + JoinWith(cs, SEP) + "/");
    var parts := [""] + (cs + [""]);
    assert NoSlash(cs) && NoSlash([""]) && NoSlash(cs + [""]);
    assert parts[1..] == cs + [""];
    assert Resolve([], parts) == Resolve([], cs + [""]);
    ResolveAppend([], cs, [""]);
    ResolveProper([], cs);
    assert Resolve(cs, [""]) == Resolve(cs, []);
  }

  /** A join of proper components does not end with a slash. */
  lemma {:induction false} JoinEndsWithComponent(cs: seq<string>)
    requires AllProper(cs) && cs != []
    ensures |JoinWith(cs, SEP)| > 0 && JoinWith(cs, SEP)[|JoinWith(cs, SEP)| - 1] != '/'
    decreases |cs|
  {
    assert Proper(cs[0]);
    if |cs| > 1 {
      JoinEndsWithComponent(cs[1..]);
    } else {
      assert cs[0][|cs[0]| - 1] in cs[0];
    }
  }

  /** Normalising a normalised path changes nothing. */
  lemma NormPathIdempotent(p: string)
    requires IsAbs(p)
    ensures NormPath(NormPath(p)) == NormPath(p)
  {
    var root := LeadingSlashes(p);
    SplitNoSlash(p);
    var cs := Resolve([], SplitOn(p, SEP));
    var q := NormPath(p);
    assert q == root + JoinWith(cs, SEP);
    if cs != [] {
      JoinStartsWithComponent(cs);
    }
    assert LeadingSlashes(q) == root;
    ResolveRooted(root, cs);
  }

  /** Joining a relative path puts exactly one separator after the directory. */
  lemma JoinRelative(a: string, x: string)
    requires |a| > 0 && !IsAbs(x)
    ensures Join(a, x) == (if a[|a| - 1] == '/' then a[..|a| - 1] else a) + SEP + x
  {
    if a[|a| - 1] == '/' {
      assert a == a[..|a| - 1] + SEP;
    }
  }

  /** A proper component after a separator is kept by the `normpath` loop. */
  lemma ResolveExtended(base: string, n: string)
    requires Proper(n)
    ensures NoSlash(SplitOn(base + SEP + n, SEP)) && NoSlash(SplitOn(base, SEP))
    ensures Resolve([], SplitOn(base + SEP + n, SEP)) == Resolve([], SplitOn(base, SEP)) + [n]
  {
    SplitAppend(base, SEP, n);
    SplitNone(n, SEP);
    SplitNoSlash(base);
    SplitNoSlash(base + SEP + n);
    ResolveAppend([], SplitOn(base, SEP), [n]);
    ResolveProper(Resolve([], SplitOn(base, SEP)), [n]);
  }

  /** A `.` component after a separator is skipped by the `normpath` loop. */
  lemma ResolveDot(base: string)
    ensures NoSlash(SplitOn(base + SEP + ".", SEP)) && NoSlash(SplitOn(base, SEP))
    ensures Resolve([], SplitOn(base + SEP + ".", SEP)) == Resolve([], SplitOn(base, SEP))
  {
    SplitAppend(base, SEP, ".");
    SplitNone(".", SEP);
    SplitNoSlash(base);
    SplitNoSlash(base + SEP + ".");
    ResolveAppend([], SplitOn(base, SEP), ["."]);
  }
}
