/**
 * POSIX path helpers used by the dependency scanner: splitting on '/',
 * joining, `normpath`, `basename`, `splitext`, and the hyphen sanitising
 * applied to file names.  Each follows the POSIX flavour of Python's
 * `os.path`, which is what the scanner calls.
 */
module Paths {

  // ---------------------------------------------------------------------
  // Splitting and joining on '/'
  // ---------------------------------------------------------------------

  /** The segments joined with a '/' between each two. */
  function Join(segs: seq<string>): string
  {
    if |segs| == 0 then ""
    else if |segs| == 1 then segs[0]
    else segs[0] + "/" + Join(segs[1..])
  }

  /** The segments between the '/' characters of `s`: never empty, no segment holds a '/', and joining the
      segments back gives the original string. */
  function Split(s: string): (segs: seq<string>)
    ensures |segs| >= 1
    ensures forall i :: 0 <= i < |segs| ==> '/' !in segs[i]
    ensures Join(segs) == s
    decreases |s|
  {
    if |s| == 0 then [""]
    else
      var rest := Split(s[1..]);
      if s[0] == '/' then
        assert s == "/" + s[1..];
        [""] + rest
      else
        var segs := [[s[0]] + rest[0]] + rest[1..];
        assert s == [s[0]] + s[1..];
        assert Join(segs) == [s[0]] + Join(rest) by {
          if |rest| > 1 {
            assert segs[1..] == rest[1..];
          }
        }
        segs
  }

  /** A segment without '/' splits to itself. */
  lemma {:induction false} SplitPlain(a: string)
    requires '/' !in a
    ensures Split(a) == [a]
    decreases |a|
  {
    if |a| > 0 {
      SplitPlain(a[1..]);
      assert [a[0]] + a[1..] == a;
    }
  }

  /** A slash-free head followed by '/' splits off as its own segment. */
  lemma {:induction false} SplitHead(a: string, t: string)
    requires '/' !in a
    ensures Split(a + "/" + t) == [a] + Split(t)
    decreases |a|
  {
    var s := a + "/" + t;
    if |a| == 0 {
      assert s[1..] == t;
    } else {
      assert s[1..] == a[1..] + "/" + t;
      SplitHead(a[1..], t);
      assert [a[0]] + a[1..] == a;
    }
  }

  /** Splitting undoes joining, for a non-empty list of slash-free segments. */
  lemma {:induction false} SplitJoin(segs: seq<string>)
    requires |segs| >= 1
    requires forall i :: 0 <= i < |segs| ==> '/' !in segs[i]
    ensures Split(Join(segs)) == segs
    decreases |segs|
  {
    if |segs| == 1 {
      SplitPlain(segs[0]);
    } else {
      SplitJoin(segs[1..]);
      SplitHead(segs[0], Join(segs[1..]));
    }
  }

  /** The first character of a joined list is that of its first segment. */
  lemma {:induction false} JoinHead(segs: seq<string>)
    requires |segs| >= 1 && |segs[0]| >= 1
    ensures |Join(segs)| >= 1 && Join(segs)[0] == segs[0][0]
  {
  }

  // ---------------------------------------------------------------------
  // normpath
  // ---------------------------------------------------------------------

  /** Number of leading slashes `normpath` keeps: two exactly when the path
      starts with exactly two slashes, one for any other rooted path. */
  function InitialSlashes(p: string): (n: nat)
    ensures n <= 2
    ensures n == 0 <==> (|p| == 0 || p[0] != '/')
  {
    if |p| >= 1 && p[0] == '/' then
      if |p| >= 2 && p[1] == '/' && !(|p| >= 3 && p[2] == '/') then 2 else 1
    else 0
  }

  function Slashes(n: nat): (s: string)
    ensures |s| == n && forall i :: 0 <= i < n ==> s[i] == '/'
  {
    if n == 0 then "" else "/" + Slashes(n - 1)
  }

  /** One iteration of `normpath`'s loop over the components: empty and "."
      components vanish; ".." is kept at the start of a relative path and
      after another "..", is dropped at the root of a rooted path, and
      otherwise cancels the component before it. */
  function Step(acc: seq<string>, comp: string, rooted: bool): seq<string>
  {
    if comp == "" || comp == "." then acc
    else if comp != ".." || (!rooted && acc == []) || (acc != [] && acc[|acc| - 1] == "..") then
      acc + [comp]
    else if acc != [] then acc[..|acc| - 1]
    else acc
  }

  /** The loop itself: `Step` applied to the components left to right. */
  function Fold(acc: seq<string>, comps: seq<string>, rooted: bool): seq<string>
    decreases |comps|
  {
    if comps == [] then acc else Fold(Step(acc, comps[0], rooted), comps[1..], rooted)
  }

  /** `os.path.normpath` (POSIX). */
  function NormPath(p: string): (r: string)
    ensures r != ""
  {
    if p == "" then "."
    else
      var n := InitialSlashes(p);
      var path := Slashes(n) + Join(Fold([], Split(p), n > 0));
      if path == "" then "." else path
  }

  /** The shape of `normpath`'s component list: no empty, "." or
      slash-holding component, and ".." only as a run at the very start of
      a relative path. */
  ghost predicate Canonical(comps: seq<string>, rooted: bool)
  {
    && (forall i :: 0 <= i < |comps| ==> comps[i] != "" && comps[i] != "." && '/' !in comps[i])
    && (rooted ==> ".." !in comps)
    && (forall i, j :: 0 <= j < i < |comps| && comps[i] == ".." ==> comps[j] == "..")
  }

  lemma StepCanonical(acc: seq<string>, comp: string, rooted: bool)
    requires Canonical(acc, rooted) && '/' !in comp
    ensures Canonical(Step(acc, comp, rooted), rooted)
  {
    var r := Step(acc, comp, rooted);
    if comp == ".." && acc != [] && acc[|acc| - 1] == ".." {
      assert forall j :: 0 <= j < |acc| ==> acc[j] == "..";
      assert forall j :: 0 <= j < |r| ==> r[j] == "..";
    }
  }

  lemma {:induction false} FoldCanonical(acc: seq<string>, comps: seq<string>, rooted: bool)
    requires Canonical(acc, rooted)
    requires forall i :: 0 <= i < |comps| ==> '/' !in comps[i]
    ensures Canonical(Fold(acc, comps, rooted), rooted)
    decreases |comps|
  {
    if comps != [] {
      StepCanonical(acc, comps[0], rooted);
      FoldCanonical(Step(acc, comps[0], rooted), comps[1..], rooted);
    }
  }

  /** The loop leaves an already canonical list unchanged. */
  lemma {:induction false} FoldIdentity(acc: seq<string>, comps: seq<string>, rooted: bool)
    requires Canonical(acc + comps, rooted)
    ensures Fold(acc, comps, rooted) == acc + comps
    decreases |comps|
  {
    if comps != [] {
      var all := acc + comps;
      assert all[|acc|] == comps[0];
      if comps[0] == ".." && acc != [] {
        assert all[|acc| - 1] == acc[|acc| - 1];
      }
      assert Step(acc, comps[0], rooted) == acc + [comps[0]];
      assert acc + [comps[0]] + comps[1..] == all;
      FoldIdentity(acc + [comps[0]], comps[1..], rooted);
    }
  }

  lemma SplitAfterSlash(t: string)
    ensures Split("/" + t) == [""] + Split(t)
  {
    assert ("/" + t)[1..] == t;
  }

  lemma FoldSkipsEmpty(comps: seq<string>, rooted: bool)
    ensures Fold([], [""] + comps, rooted) == Fold([], comps, rooted)
  {
    assert ([""] + comps)[1..] == comps;
  }

  /** A joined canonical list splits back into itself (or into one empty
      component when the list is empty), and the loop leaves it alone. */
  lemma SpellingParts(n: nat, comps: seq<string>)
    requires n <= 2 && Canonical(comps, n > 0)
    ensures Split(Join(comps)) == (if comps == [] then [""] else comps)
    ensures Fold([], if comps == [] then [""] else comps, n > 0) == comps
  {
    if comps != [] {
      SplitJoin(comps);
      FoldIdentity([], comps, n > 0);
    }
  }

  /** The components of a path with `n` leading slashes: `n` empty ones,
      then those of the rest. */
  lemma SplitSlashes(n: nat, j: string)
    requires n <= 2
    ensures Split(Slashes(n) + j) == seq(n, _ => "") + Split(j)
  {
    if n == 1 {
      assert Slashes(n) + j == "/" + j;
      SplitAfterSlash(j);
    } else if n == 2 {
      assert Slashes(n) + j == "/" + ("/" + j);
      SplitAfterSlash(j);
      SplitAfterSlash("/" + j);
      assert seq(2, _ => "") == [""] + [""];
    } else {
      assert Slashes(n) + j == j;
    }
  }

  /** What `normpath` splits a canonical spelling into, once the empty
      components its leading slashes produce are skipped. */
  lemma FoldOfSpelling(n: nat, comps: seq<string>)
    requires n <= 2 && Canonical(comps, n > 0)
    ensures Fold([], Split(Slashes(n) + Join(comps)), n > 0) == comps
  {
    var tail := if comps == [] then [""] else comps;
    SpellingParts(n, comps);
    SplitSlashes(n, Join(comps));
    if n == 1 {
      assert seq(1, _ => "") + tail == [""] + tail;
      FoldSkipsEmpty(tail, true);
    } else if n == 2 {
      assert seq(2, _ => "") + tail == [""] + ([""] + tail);
      FoldSkipsEmpty(tail, true);
      FoldSkipsEmpty([""] + tail, true);
    } else {
      assert seq(0, _ => "") + tail == tail;
    }
  }

  lemma InitialSlashesOfSpelling(n: nat, comps: seq<string>)
    requires n <= 2 && Canonical(comps, n > 0)
    ensures InitialSlashes(Slashes(n) + Join(comps)) == n
  {
    var q := Slashes(n) + Join(comps);
    if comps != [] {
      JoinHead(comps);
      assert q[n] == comps[0][0];
    } else {
      assert q == Slashes(n);
    }
  }

  /** A rooted prefix of slashes, or a component list, spelled out in the
      form `normpath` produces, is returned unchanged by `normpath`. */
  lemma NormPathOfCanonical(n: nat, comps: seq<string>)
    requires n <= 2 && Canonical(comps, n > 0)
    requires Slashes(n) + Join(comps) != ""
    ensures NormPath(Slashes(n) + Join(comps)) == Slashes(n) + Join(comps)
  {
    InitialSlashesOfSpelling(n, comps);
    FoldOfSpelling(n, comps);
  }

  /** `normpath` is idempotent: its result is one of its own fixed points. */
  lemma NormPathIdempotent(p: string)
    ensures NormPath(NormPath(p)) == NormPath(p)
  {
    if p != "" {
      var n := InitialSlashes(p);
      var comps := Fold([], Split(p), n > 0);
      FoldCanonical([], Split(p), n > 0);
      if Slashes(n) + Join(comps) != "" {
        NormPathOfCanonical(n, comps);
        return;
      }
    }
    assert NormPath(".") == "." by {
      assert Split(".") == ["."] by { SplitPlain("."); }
    }
  }

  /** A relative, canonical component list is returned by `normpath`
      exactly as `'/'.join` spells it. */
  lemma NormPathOfRelative(comps: seq<string>)
    requires comps != [] && Canonical(comps, false)
    ensures NormPath(Join(comps)) == Join(comps)
  {
    JoinHead(comps);
    assert Slashes(0) + Join(comps) == Join(comps);
    NormPathOfCanonical(0, comps);
  }

  // ---------------------------------------------------------------------
  // basename, splitext and the hyphen replacement
  // ---------------------------------------------------------------------

  /** The last index of `c` in `s`, or -1 when there is none. */
  function LastIndexOf(s: string, c: char): (i: int)
    ensures -1 <= i < |s|
    ensures i >= 0 ==> s[i] == c
    ensures forall k :: i < k < |s| ==> s[k] != c
  {
    if |s| == 0 then -1
    else if s[|s| - 1] == c then |s| - 1
    else LastIndexOf(s[..|s| - 1], c)
  }

  /** `os.path.basename`: what follows the last '/'. */
  function Basename(p: string): (b: string)
    ensures '/' !in b
    ensures |b| <= |p| && p[|p| - |b|..] == b
    ensures '/' !in p ==> b == p
    ensures |b| < |p| ==> p[|p| - |b| - 1] == '/'
  {
    p[LastIndexOf(p, '/') + 1..]
  }

  /** True when every character of `p[lo..hi]` is a dot. */
  predicate AllDots(p: string, lo: int, hi: int)
    requires -1 <= lo && hi <= |p|
  {
    forall k :: lo <= k < hi && k >= 0 ==> p[k] == '.'
  }

  /** `os.path.splitext` (POSIX): the extension starts at the last dot
      after the last '/', unless only dots precede that dot in the last
      component (so ".bashrc" has no extension). */
  function SplitExt(p: string): (r: (string, string))
    ensures r.0 + r.1 == p
    ensures r.1 == "" || (r.1[0] == '.' && '.' !in r.1[1..] && '/' !in r.1)
  {
    var sep := LastIndexOf(p, '/');
    var dot := LastIndexOf(p, '.');
    if dot > sep && !AllDots(p, sep + 1, dot) then
      assert p[..dot] + p[dot..] == p;
      (p[..dot], p[dot..])
    else (p, "")
  }

  /** For a slash-free name, an extension is split off exactly when some
      dot in the name has a non-dot character somewhere before it. */
  lemma SplitExtOfName(p: string)
    requires '/' !in p
    ensures SplitExt(p).1 != "" <==>
            exists i, j :: 0 <= i < j < |p| && p[i] != '.' && p[j] == '.'
  {
    var dot := LastIndexOf(p, '.');
    assert LastIndexOf(p, '/') == -1;
    if exists i, j :: 0 <= i < j < |p| && p[i] != '.' && p[j] == '.' {
      var i, j :| 0 <= i < j < |p| && p[i] != '.' && p[j] == '.';
      assert j <= dot;
      assert !AllDots(p, 0, dot);
    }
  }

  /** Every '-' of `s` replaced by '_'. */
  function ReplaceHyphens(s: string): (r: string)
    ensures |r| == |s|
    ensures forall i :: 0 <= i < |s| ==> r[i] == (if s[i] == '-' then '_' else s[i])
  {
    if s == [] then [] else [if s[0] == '-' then '_' else s[0]] + ReplaceHyphens(s[1..])
  }

  /** Replacing hyphens works piece by piece: in a concatenation, each
      part is replaced on its own. */
  lemma ReplaceHyphensAppend(a: string, b: string)
    ensures ReplaceHyphens(a + b) == ReplaceHyphens(a) + ReplaceHyphens(b)
  {
    var l, r := ReplaceHyphens(a) + ReplaceHyphens(b), ReplaceHyphens(a + b);
    forall i | 0 <= i < |a + b|
      ensures l[i] == r[i]
    {
      if i < |a| {
        assert (a + b)[i] == a[i];
      } else {
        assert (a + b)[i] == b[i - |a|];
      }
    }
  }
}
