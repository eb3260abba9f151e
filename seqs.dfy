/**
 * Searching, splitting and joining of sequences, as Python's `in`, `find`,
 * `split(sep)` and `sep.join(...)` do on `str` and `bytes`.
 */
module Seqs {
  import opened Wrappers

  /** `pat` occurs in `s` starting at index `i`. */
  predicate OccursAt<T(==)>(s: seq<T>, pat: seq<T>, i: int) {
    0 <= i && i + |pat| <= |s| && s[i..i + |pat|] == pat
  }

  /** Python's `pat in s` for two sequences. */
  predicate Contains<T(==)>(s: seq<T>, pat: seq<T>) {
    exists i | 0 <= i <= |s| :: OccursAt(s, pat, i)
  }

  /** No element of `s` is an element of `bad`. */
  predicate Avoids<T(==)>(s: seq<T>, bad: seq<T>) {
    forall k :: 0 <= k < |s| ==> s[k] !in bad
  }

  lemma OccursShift<T>(s: seq<T>, pat: seq<T>)
    requires |s| > 0
    ensures forall i :: 1 <= i ==> (OccursAt(s, pat, i) <==> OccursAt(s[1..], pat, i - 1))
  {
    forall i | 1 <= i
      ensures OccursAt(s, pat, i) <==> OccursAt(s[1..], pat, i - 1)
    {
      if i + |pat| <= |s| {
        assert s[1..][i - 1..i - 1 + |pat|] == s[i..i + |pat|];
      }
    }
  }

  /** The index of the first occurrence of `pat` in `s` (Python's `find`). */
  function IndexOf<T(==)>(s: seq<T>, pat: seq<T>): (r: Option<nat>)
    ensures r.Some? ==> OccursAt(s, pat, r.value)
    ensures r.Some? ==> forall j :: 0 <= j < r.value ==> !OccursAt(s, pat, j)
    ensures r.None? ==> !Contains(s, pat)
    decreases |s|
  {
    if |s| < |pat| then None
    else if s[..|pat|] == pat then Some(0)
    else
      OccursShift(s, pat);
      match IndexOf(s[1..], pat)
      case None => None
      case Some(k) => Some(k + 1)
  }

  /** Python's `sep.join(pieces)`. */
  function JoinWith<T>(pieces: seq<seq<T>>, sep: seq<T>): seq<T>
    decreases |pieces|
  {
    if |pieces| == 0 then []
    else if |pieces| == 1 then pieces[0]
    else pieces[0] + sep + JoinWith(pieces[1..], sep)
  }

  /** Python's `s.split(sep)` for a non-empty separator. */
  function SplitOn<T(==)>(s: seq<T>, sep: seq<T>): (r: seq<seq<T>>)
    requires |sep| > 0
    ensures |r| >= 1
    ensures JoinWith(r, sep) == s
    decreases |s|
  {
    match IndexOf(s, sep)
    case None => [s]
    case Some(i) =>
      var rest := SplitOn(s[i + |sep|..], sep);
      assert s == s[..i] + sep + s[i + |sep|..];
      [s[..i]] + rest
  }

  /** No piece of a split holds the separator. */
  lemma {:induction false} SplitPiecesAvoid<T>(s: seq<T>, sep: seq<T>)
    requires |sep| > 0
    ensures forall k :: 0 <= k < |SplitOn(s, sep)| ==> !Contains(SplitOn(s, sep)[k], sep)
    decreases |s|
  {
    match IndexOf(s, sep)
    case None =>
    case Some(i) =>
      SplitUnfold(s, sep, i);
      SplitPiecesAvoid(s[i + |sep|..], sep);
      BeforeFirstOccurrence(s, sep, i);
  }

  /** The text before the first occurrence of `sep` holds no occurrence. */
  lemma BeforeFirstOccurrence<T>(s: seq<T>, sep: seq<T>, i: nat)
    requires |sep| > 0 && IndexOf(s, sep) == Some(i)
    ensures !Contains(s[..i], sep)
  {
    assert s[..i] + s[i..] == s;
    forall j | 0 <= j <= i ensures !OccursAt(s[..i], sep, j) {
      if j + |sep| <= i {
        OccursInPrefix(s[..i], sep, s[i..], j);
      }
    }
  }

  lemma AvoidsNoOccurrence<T>(s: seq<T>, sep: seq<T>)
    requires |sep| > 0 && Avoids(s, sep)
    ensures !Contains(s, sep)
  {
    forall j | 0 <= j <= |s| ensures !OccursAt(s, sep, j) {
      if j + |sep| <= |s| {
        assert s[j..j + |sep|][0] == s[j];
      }
    }
  }

  /** Splitting on a separator recovers the pieces it joined, when no piece holds a separator element. */
  lemma {:induction false} SplitJoin<T>(pieces: seq<seq<T>>, sep: seq<T>)
    requires |sep| > 0 && |pieces| >= 1
    requires forall k :: 0 <= k < |pieces| ==> Avoids(pieces[k], sep)
    ensures SplitOn(JoinWith(pieces, sep), sep) == pieces
  {
    if |pieces| == 1 {
      SplitNone(pieces[0], sep);
    } else {
      var p, tail := pieces[0], pieces[1..];
      assert JoinWith(pieces, sep) == p + sep + JoinWith(tail, sep);
      SplitFirst(p, sep, JoinWith(tail, sep));
      SplitJoin(tail, sep);
      assert [p] + tail == pieces;
    }
  }

  /** Splitting `a + sep + b`, where `a` holds no separator element, cuts at that separator first. */
  lemma SplitFirst<T>(a: seq<T>, sep: seq<T>, b: seq<T>)
    requires |sep| > 0 && Avoids(a, sep)
    ensures SplitOn(a + sep + b, sep) == [a] + SplitOn(b, sep)
  {
    var s := a + sep + b;
    FirstAfterAvoiding(a, sep, b);
    SplitUnfold(s, sep, |a|);
    assert s[..|a|] == a;
    assert s[|a| + |sep|..] == b;
  }

  /** In `a + sep + b`, where `a` holds no separator element, the first occurrence is right after `a`. */
  lemma FirstAfterAvoiding<T>(a: seq<T>, sep: seq<T>, b: seq<T>)
    requires |sep| > 0 && Avoids(a, sep)
    ensures IndexOf(a + sep + b, sep) == Some(|a|)
  {
    var s := a + sep + b;
    assert s[|a|..|a| + |sep|] == sep;
    assert OccursAt(s, sep, |a|);
    forall j | 0 <= j < |a| ensures !OccursAt(s, sep, j) {
      assert s[j] == a[j];
      assert s[j..j + |sep|][0] == s[j];
    }
  }

  /** A sequence with no separator element splits into itself alone. */
  lemma SplitNone<T>(a: seq<T>, sep: seq<T>)
    requires |sep| > 0 && Avoids(a, sep)
    ensures SplitOn(a, sep) == [a]
  {
    AvoidsNoOccurrence(a, sep);
  }

  /** Joining two non-empty lists of pieces is joining each and putting a separator between. */
  lemma {:induction false} JoinWithAppend<T>(a: seq<seq<T>>, b: seq<seq<T>>, sep: seq<T>)
    requires |a| >= 1 && |b| >= 1
    ensures JoinWith(a + b, sep) == JoinWith(a, sep) + sep + JoinWith(b, sep)
    decreases |a|
  {
    if |a| == 1 {
      assert (a + b)[1..] == b;
    } else {
      assert (a + b)[1..] == a[1..] + b;
      JoinWithAppend(a[1..], b, sep);
    }
  }

  /** A join of pieces and a separator that all avoid `bad` avoids `bad`. */
  lemma {:induction false} JoinAvoids<T>(pieces: seq<seq<T>>, sep: seq<T>, bad: seq<T>)
    requires Avoids(sep, bad) && forall k :: 0 <= k < |pieces| ==> Avoids(pieces[k], bad)
    ensures Avoids(JoinWith(pieces, sep), bad)
    decreases |pieces|
  {
    if |pieces| > 1 {
      JoinAvoids(pieces[1..], sep, bad);
      var j := JoinWith(pieces, sep);
      var tail := JoinWith(pieces[1..], sep);
      assert j == pieces[0] + sep + tail;
      forall k | 0 <= k < |j| ensures j[k] !in bad {
        if k < |pieces[0]| {
          assert j[k] == pieces[0][k];
        } else if k < |pieces[0]| + |sep| {
          assert j[k] == sep[k - |pieces[0]|];
        } else {
          assert j[k] == tail[k - |pieces[0]| - |sep|];
        }
      }
    }
  }

  /** A first occurrence inside `a` stays the first occurrence once `a` is extended. */
  lemma IndexOfExtended<T>(a: seq<T>, pat: seq<T>, b: seq<T>, i: nat)
    requires IndexOf(a, pat) == Some(i)
    ensures IndexOf(a + b, pat) == Some(i)
  {
    var s := a + b;
    OccursInPrefix(a, pat, b, i);
    assert Contains(s, pat);
    var k := IndexOf(s, pat);
    assert k.Some? && k.value <= i;
    OccursInPrefix(a, pat, b, k.value);
  }

  /** An occurrence that lies within `a` is an occurrence in `a + b`, and conversely. */
  lemma OccursInPrefix<T>(a: seq<T>, pat: seq<T>, b: seq<T>, j: nat)
    requires j + |pat| <= |a|
    ensures OccursAt(a + b, pat, j) <==> OccursAt(a, pat, j)
  {
    assert (a + b)[j..j + |pat|] == a[j..j + |pat|];
  }

  /** With a one-element separator, a sequence without occurrences avoids the separator. */
  lemma NoneAvoids<T>(a: seq<T>, sep: seq<T>)
    requires |sep| == 1 && IndexOf(a, sep).None?
    ensures Avoids(a, sep)
  {
    forall k | 0 <= k < |a| ensures a[k] !in sep {
      assert !OccursAt(a, sep, k);
      assert a[k..k + 1] == [a[k]];
      assert sep == [sep[0]];
    }
  }

  /** Splitting on a one-element separator distributes over a separator between two sequences. */
  lemma {:induction false} SplitAppend<T>(a: seq<T>, sep: seq<T>, b: seq<T>)
    requires |sep| == 1
    ensures SplitOn(a + sep + b, sep) == SplitOn(a, sep) + SplitOn(b, sep)
    decreases |a|
  {
    match IndexOf(a, sep)
    case None =>
      NoneAvoids(a, sep);
      SplitFirst(a, sep, b);
      SplitNone(a, sep);
    case Some(i) =>
      SplitUnfold(a, sep, i);
      SplitAppend(a[i + 1..], sep, b);
      SplitAppendStep(a, sep, b, i);
  }

  /** One step of `SplitAppend`: the piece before the first separator of `a` comes first on both sides. */
  lemma SplitAppendStep<T>(a: seq<T>, sep: seq<T>, b: seq<T>, i: nat)
    requires |sep| == 1 && IndexOf(a, sep) == Some(i)
    requires SplitOn(a[i + 1..] + sep + b, sep) == SplitOn(a[i + 1..], sep) + SplitOn(b, sep)
    ensures SplitOn(a + sep + b, sep) == SplitOn(a, sep) + SplitOn(b, sep)
  {
    SplitExtended(a, sep, b, i);
    SplitUnfold(a, sep, i);
    ConcatAssociative([a[..i]], SplitOn(a[i + 1..], sep), SplitOn(b, sep));
  }

  /** Extending `a` past its first separator leaves the first piece in place. */
  lemma SplitExtended<T>(a: seq<T>, sep: seq<T>, b: seq<T>, i: nat)
    requires |sep| == 1 && IndexOf(a, sep) == Some(i)
    ensures i < |a|
    ensures SplitOn(a + sep + b, sep) == [a[..i]] + SplitOn(a[i + 1..] + sep + b, sep)
  {
    ConcatAssociative(a, sep, b);
    IndexOfExtended(a, sep, sep + b, i);
    SliceAround(a, sep, b, i);
    SplitUnfold(a + sep + b, sep, i);
  }

  lemma SliceAround<T>(a: seq<T>, sep: seq<T>, b: seq<T>, i: nat)
    requires |sep| == 1 && i < |a|
    ensures (a + sep + b)[..i] == a[..i] && (a + sep + b)[i + 1..] == a[i + 1..] + sep + b
  {
  }

  lemma ConcatAssociative<T>(x: seq<T>, y: seq<T>, z: seq<T>)
    ensures x + (y + z) == (x + y) + z
  {
  }

  /** Splitting at the first occurrence, at `i`, puts `s[..i]` first. */
  lemma SplitUnfold<T>(s: seq<T>, sep: seq<T>, i: nat)
    requires |sep| > 0 && IndexOf(s, sep) == Some(i)
    ensures i + |sep| <= |s|
    ensures SplitOn(s, sep) == [s[..i]] + SplitOn(s[i + |sep|..], sep)
  {
  }

  /** Where `sep` does not start a sequence, its first element goes to the first piece. */
  lemma SplitCons<T>(c: T, t: seq<T>, sep: seq<T>)
    requires |sep| > 0 && !OccursAt([c] + t, sep, 0)
    ensures SplitOn([c] + t, sep) == [[c] + SplitOn(t, sep)[0]] + SplitOn(t, sep)[1..]
  {
    IndexOfCons(c, t, sep);
    match IndexOf(t, sep)
    case None =>
    case Some(k) => SplitConsAt(c, t, sep, k);
  }

  lemma SplitConsAt<T>(c: T, t: seq<T>, sep: seq<T>, k: nat)
    requires |sep| > 0 && IndexOf(t, sep) == Some(k) && IndexOf([c] + t, sep) == Some(k + 1)
    ensures SplitOn([c] + t, sep) == [[c] + SplitOn(t, sep)[0]] + SplitOn(t, sep)[1..]
  {
    var s := [c] + t;
    SplitUnfold(s, sep, k + 1);
    SplitUnfold(t, sep, k);
    ConsSlices(c, t, k, k + |sep|);
  }

  lemma ConsSlices<T>(c: T, t: seq<T>, k: nat, m: nat)
    requires k <= m <= |t|
    ensures ([c] + t)[..k + 1] == [c] + t[..k] && ([c] + t)[m + 1..] == t[m..]
  {
  }

  lemma IndexOfCons<T>(c: T, t: seq<T>, sep: seq<T>)
    requires |sep| > 0 && !OccursAt([c] + t, sep, 0)
    ensures IndexOf([c] + t, sep) == match IndexOf(t, sep) case None => None case Some(k) => Some(k + 1)
  {
    var s := [c] + t;
    assert s[1..] == t;
    if |s| >= |sep| {
      assert s[..|sep|] == s[0..0 + |sep|];
    }
  }

  /** Adding an element in front of the first piece adds it in front of the joined sequence. */
  lemma JoinPrepend<T>(c: T, pieces: seq<seq<T>>, sep: seq<T>)
    requires |pieces| >= 1
    ensures JoinWith([[c] + pieces[0]] + pieces[1..], sep) == [c] + JoinWith(pieces, sep)
  {
    var q := [[c] + pieces[0]] + pieces[1..];
    assert q[0] == [c] + pieces[0] && q[1..] == pieces[1..];
  }

  /** An empty first piece leaves just the separator in front. */
  lemma JoinEmptyFirst<T>(pieces: seq<seq<T>>, sep: seq<T>)
    requires |pieces| >= 1
    ensures JoinWith([[]] + pieces, sep) == sep + JoinWith(pieces, sep)
  {
    assert ([[]] + pieces)[1..] == pieces;
  }
}
