/**
 * The part of `pathlib` (POSIX flavour) that the request handler relies
 * on: building a `Path` from a string, `str(path)`, `path / name` and
 * `path.suffix`. Only the lexical side is modelled here; what a path
 * denotes on disk is decided by the file-system oracle of the resolver.
 */
module PurePaths {
  import opened Seqs
  import opened PosixPath

  /**
   * A parsed path: its root (`""`, `"/"` or `"//"`) and its parts. Unlike
   * `normpath`, pathlib keeps `..` parts; it drops only empty and `.` parts.
   */
  datatype PurePath = PurePath(root: string, parts: seq<string>)

  /** A part pathlib can hold: not empty, not `.`, without `/` (`..` allowed). */
  predicate IsPart(c: string) {
    c != "" && c != "." && '/' !in c
  }

  predicate WellFormed(p: PurePath) {
    (p.root == "" || p.root == "/" || p.root == "//")
    && forall k :: 0 <= k < |p.parts| ==> IsPart(p.parts[k])
  }

  /**
   * `splitroot` of the POSIX flavour: exactly two leading slashes are kept
   * as a root of their own, one or three and more become `"/"`.
   */
  function SplitRoot(s: string): (r: (string, string))
    ensures r.0 + r.1 == s || (r.0 == "/" && s == "/" + r.1)
    ensures r.0 == "" <==> !IsAbs(s)
  {
    if !IsAbs(s) then ("", s)
    else if |s| >= 2 && s[1] == '/' && !(|s| >= 3 && s[2] == '/') then ("//", s[2..])
    else ("/", s[1..])
  }

  /** `Path(s)`: split off the root, then keep the non-empty, non-`.` pieces. */
  function Parse(s: string): (p: PurePath)
    ensures WellFormed(p)
    ensures p.root == "" <==> !IsAbs(s)
  {
    var (root, rest) := SplitRoot(s);
    SplitNoSlash(rest);
    PurePath(root, DropEmptyAndDot(SplitOn(rest, SEP)))
  }

  /** `str(p)`: the root, the parts joined by `/`, and `.` for the empty relative path. */
  function ToString(p: PurePath): string {
    if p.root == "" && p.parts == [] then "." else p.root + JoinWith(p.parts, SEP)
  }

  /** `p / name` for a single part `name`. */
  function Child(p: PurePath, name: string): (r: PurePath)
    requires WellFormed(p) && IsPart(name)
    ensures WellFormed(r)
    ensures r.root == p.root && |r.parts| == |p.parts| + 1 && r.parts[..|p.parts|] == p.parts && r.parts[|p.parts|..] == [name]
  {
    PurePath(p.root, p.parts + [name])
  }

  /** `p.name`: the last part, or `""` when there is none. */
  function Name(p: PurePath): string {
    if p.parts == [] then "" else p.parts[|p.parts| - 1]
  }

  /** `s.rfind(c)`: the last index of `c` in `s`, or -1. */
  function LastIndexOf(s: string, c: char): (r: int)
    ensures -1 <= r < |s|
    ensures r >= 0 ==> s[r] == c
    ensures forall j :: r < j < |s| ==> s[j] != c
    decreases |s|
  {
    if s == [] then -1
    else if s[|s| - 1] == c then |s| - 1
    else LastIndexOf(s[..|s| - 1], c)
  }

  /**
   * `p.suffix`: from the last `.` of the name to its end, provided that dot
   * is neither the first nor the last character of the name; `""` otherwise.
   */
  function Suffix(p: PurePath): (r: string)
    ensures r != "" ==> 1 < |r| < |Name(p)| && r[0] == '.' && Name(p)[|Name(p)| - |r|..] == r
    ensures r != "" ==> forall j :: 1 <= j < |r| ==> r[j] != '.'
    ensures r == "" ==> forall i :: 0 < i < |Name(p)| - 1 && Name(p)[i] == '.' ==>
      exists j :: i < j < |Name(p)| && Name(p)[j] == '.'
  {
    var name := Name(p);
    var i := LastIndexOf(name, '.');
    if 0 < i < |name| - 1 then
      assert forall j :: 1 <= j < |name[i..]| ==> name[i..][j] == name[i + j];
      name[i..]
    else ""
  }

  lemma JoinPartsStart(cs: seq<string>)
    requires cs != [] && forall k :: 0 <= k < |cs| ==> IsPart(cs[k])
    ensures IsPart(cs[0]) && |JoinWith(cs, SEP)| > 0 && JoinWith(cs, SEP)[0] == cs[0][0]
  {
    assert IsPart(cs[0]);
  }

  lemma {:induction false} DropParts(cs: seq<string>)
    requires forall k :: 0 <= k < |cs| ==> IsPart(cs[k])
    ensures DropEmptyAndDot(cs) == cs
    decreases |cs|
  {
    if cs != [] {
      DropParts(cs[1..]);
    }
  }

  lemma SplitParts(cs: seq<string>)
    requires forall k :: 0 <= k < |cs| ==> IsPart(cs[k])
    ensures DropEmptyAndDot(SplitOn(JoinWith(cs, SEP), SEP)) == cs
  {
    if cs == [] {
      assert SplitOn("", SEP) == [""];
    } else {
      SplitJoin(cs, SEP);
      DropParts(cs);
    }
  }

  /** Printing a well-formed path and parsing the text back gives the same path. */
  lemma ParseToString(p: PurePath)
    requires WellFormed(p)
    ensures Parse(ToString(p)) == p
  {
    var j := JoinWith(p.parts, SEP);
    if p.parts != [] {
      JoinPartsStart(p.parts);
    }
    if p.root == "" && p.parts == [] {
      assert Avoids(".", SEP);
      SplitNone(".", SEP);
      assert SplitRoot(".") == ("", ".");
      assert DropEmptyAndDot(["."]) == [];
    } else {
      var t := ToString(p);
      assert t == p.root + j;
      assert j != [] ==> j[0] != '/' by {
        if j != [] {
          assert j[0] == p.parts[0][0] && IsPart(p.parts[0]);
        }
      }
      assert t[|p.root|..] == j;
      if p.root == "/" {
        assert |t| >= 2 ==> t[1] == j[0];
      } else if p.root == "//" {
        assert |t| >= 3 ==> t[2] == j[0];
      }
      assert SplitRoot(t) == (p.root, j);
      SplitParts(p.parts);
    }
  }

  /** `Path(str(Path(s)))` is `Path(s)`: parsing normalises once and for all. */
  lemma ParseIdempotent(s: string)
    ensures Parse(ToString(Parse(s))) == Parse(s)
  {
    ParseToString(Parse(s));
  }

  /** Appending `index.html` to a directory gives a path whose suffix is `.html`. */
  lemma IndexIsPart()
    ensures IsPart("index.html") && Proper("index.html")
  {
  }

  lemma IndexSuffix(p: PurePath)
    requires WellFormed(p)
    ensures Suffix(Child(p, "index.html")) == ".html"
  {
    var name := Name(Child(p, "index.html"));
    assert name == "index.html";
    assert LastIndexOf("index.", '.') == 5;
    assert "index.h"[..6] == "index.";
    assert LastIndexOf("index.h", '.') == 5;
    assert "index.ht"[..7] == "index.h";
    assert LastIndexOf("index.ht", '.') == 5;
    assert "index.htm"[..8] == "index.ht";
    assert LastIndexOf("index.htm", '.') == 5;
    assert name[..9] == "index.htm";
    assert LastIndexOf(name, '.') == 5;
  }
}
