/**
 * The three line-anchored lexical scanners of the dependency scanner,
 * written as hand-made matchers over the text rather than a regular
 * expression engine.  Each match starts at a line start:
 *
 *   load:   a `pv_load(` call whose first argument is a quoted, non-empty
 *           namespace and whose second argument, after ", ", runs to the
 *           first parenthesis, which must be a closing one;
 *   save:   the same for `pv_save(` and `pv_call(` calls, except that the
 *           second argument also stops at a comma, and may be closed by one;
 *   depend: the marker `# Depend: ` followed by the rest of the line.
 *
 * A line start is the start of the text or the position just after a
 * newline (multi-line mode), and a depend line ends at a newline or at the
 * end of the text.
 * `IsMatch` states declaratively what a match of each pattern is; `MatchAt`
 * is the matcher; `Scan` is `findall` over any matcher: left to right,
 * never overlapping, resuming at the end of each match.
 */
module Scanner {

  datatype Option<T> = None | Some(value: T)

  datatype Pattern = LoadPattern | SavePattern | DependPattern

  /** The capture groups of one match: (namespace, identifier) for the
      load and save patterns, the glob text for the depend pattern. */
  datatype Capture = RefCapture(namespace: string, ident: string) | GlobCapture(glob: string)

  /** One match: the span `text[start..end]` and what it captured. */
  datatype Match = Match(start: nat, end: nat, capture: Capture)

  const DependMarker: string := "# Depend: "
  const Quotes: set<char> := {'\'', '"'}

  /** Where MULTILINE `^` matches. */
  predicate AtLineStart(text: string, p: nat)
  {
    p == 0 || (p <= |text| && text[p - 1] == '\n')
  }

  /** The eight-character call prefix the pattern accepts. */
  predicate IsCallName(pat: Pattern, s: string)
  {
    match pat
    case LoadPattern => s == "pv_load("
    case SavePattern => s == "pv_save(" || s == "pv_call("
    case DependPattern => false
  }

  /** Characters the identifier group may not contain. */
  function IdentStops(pat: Pattern): set<char>
  {
    if pat == LoadPattern then {'(', ')'} else {'(', ')', ','}
  }

  /** Characters that may follow (and end) the identifier group. */
  function Closers(pat: Pattern): set<char>
  {
    if pat == LoadPattern then {')'} else {',', ')'}
  }

  /** End of the longest run of characters outside `stops` from `p` on: a
      greedy negated character class. */
  function RunEnd(text: string, p: nat, stops: set<char>): (e: nat)
    requires p <= |text|
    ensures p <= e <= |text|
    ensures forall k :: p <= k < e ==> text[k] !in stops
    ensures e < |text| ==> text[e] in stops
    decreases |text| - p
  {
    if p == |text| || text[p] in stops then p else RunEnd(text, p + 1, stops)
  }

  /** The text of a depend match: the marker, then the rest of the line. */
  ghost predicate IsDependSpan(s: string, g: string)
  {
    s == DependMarker + g && '\n' !in g
  }

  /** The text of a load or save match: call name, a quote, a non-empty
      namespace free of quotes, a quote of either kind, ", ", a non-empty
      identifier free of the pattern's stop characters, and a closer. */
  ghost predicate IsRefSpan(pat: Pattern, s: string, ns: string, id: string)
  {
    && ns != [] && (forall c :: c in ns ==> c !in Quotes)
    && id != [] && (forall c :: c in id ==> c !in IdentStops(pat))
    && |s| == 13 + |ns| + |id|
    && IsCallName(pat, s[..8])
    && s[8] in Quotes
    && s[9..9 + |ns|] == ns
    && s[9 + |ns|] in Quotes
    && s[10 + |ns|..12 + |ns|] == ", "
    && s[12 + |ns|..12 + |ns| + |id|] == id
    && s[|s| - 1] in Closers(pat)
  }

  /** What a match of `pat` is, stated as the regular expression reads. */
  ghost predicate IsMatch(pat: Pattern, text: string, m: Match)
  {
    && m.start < m.end <= |text|
    && AtLineStart(text, m.start)
    && match m.capture
       case GlobCapture(g) =>
         && pat == DependPattern
         && IsDependSpan(text[m.start..m.end], g)
         && (m.end == |text| || text[m.end] == '\n')
       case RefCapture(ns, id) =>
         && pat != DependPattern
         && IsRefSpan(pat, text[m.start..m.end], ns, id)
  }

  /** The depend match starting at line start `p`, if any. */
  function MatchDependAt(text: string, p: nat): (r: Option<Match>)
    requires p <= |text|
    ensures r.Some? ==> r.value.start == p < r.value.end <= |text|
  {
    if p + 10 <= |text| && text[p..p + 10] == DependMarker then
      var e := RunEnd(text, p + 10, {'\n'});
      Some(Match(p, e, GlobCapture(text[p + 10..e])))
    else None
  }

  /** The depend match found at a line start is a match of the pattern. */
  lemma MatchDependAtSound(text: string, p: nat)
    requires p <= |text| && AtLineStart(text, p) && MatchDependAt(text, p).Some?
    ensures IsMatch(DependPattern, text, MatchDependAt(text, p).value)
  {
    var e := RunEnd(text, p + 10, {'\n'});
    assert text[p..e] == text[p..p + 10] + text[p + 10..e];
  }

  /** The load or save match starting at line start `p`, if any. */
  function MatchRefAt(pat: Pattern, text: string, p: nat): (r: Option<Match>)
    requires pat != DependPattern && p <= |text|
    ensures r.Some? ==> r.value.start == p < r.value.end <= |text|
  {
    if !(p + 9 <= |text| && IsCallName(pat, text[p..p + 8]) && text[p + 8] in Quotes) then None
    else
      var nsEnd := RunEnd(text, p + 9, Quotes);
      if nsEnd == p + 9 || nsEnd + 3 > |text| || text[nsEnd + 1..nsEnd + 3] != ", " then None
      else
        var idEnd := RunEnd(text, nsEnd + 3, IdentStops(pat));
        if idEnd == nsEnd + 3 || idEnd == |text| || text[idEnd] !in Closers(pat) then None
        else Some(Match(p, idEnd + 1, RefCapture(text[p + 9..nsEnd], text[nsEnd + 3..idEnd])))
  }

  /** The load or save match found at a line start is a match of the
      pattern. */
  lemma MatchRefAtSound(pat: Pattern, text: string, p: nat)
    requires pat != DependPattern && p <= |text| && AtLineStart(text, p) && MatchRefAt(pat, text, p).Some?
    ensures IsMatch(pat, text, MatchRefAt(pat, text, p).value)
  {
    var nsEnd := RunEnd(text, p + 9, Quotes);
    var idEnd := RunEnd(text, nsEnd + 3, IdentStops(pat));
    assert
      && IsCallName(pat, text[p..p + 8]) && text[p + 8] in Quotes
      && p + 9 < nsEnd && nsEnd + 3 < idEnd < |text|
      && text[nsEnd] in Quotes && text[nsEnd + 1..nsEnd + 3] == ", " && text[idEnd] in Closers(pat)
      && MatchRefAt(pat, text, p) == Some(Match(p, idEnd + 1, RefCapture(text[p + 9..nsEnd], text[nsEnd + 3..idEnd])));
    RefSpanAt(pat, text, p, nsEnd, idEnd);
  }

  /** `IsRefSpan` read off positions of the text: the namespace ends at
      `nsEnd`, the identifier at `idEnd`. */
  lemma RefSpanAt(pat: Pattern, text: string, p: nat, nsEnd: nat, idEnd: nat)
    requires p + 9 < nsEnd && nsEnd + 3 < idEnd < |text|
    requires forall k :: p + 9 <= k < nsEnd ==> text[k] !in Quotes
    requires forall k :: nsEnd + 3 <= k < idEnd ==> text[k] !in IdentStops(pat)
    requires IsCallName(pat, text[p..p + 8]) && text[p + 8] in Quotes && text[nsEnd] in Quotes
    requires text[nsEnd + 1..nsEnd + 3] == ", " && text[idEnd] in Closers(pat)
    ensures IsRefSpan(pat, text[p..idEnd + 1], text[p + 9..nsEnd], text[nsEnd + 3..idEnd])
  {
    var ns, id := text[p + 9..nsEnd], text[nsEnd + 3..idEnd];
    RunHasNoStops(text, p + 9, nsEnd, Quotes);
    RunHasNoStops(text, nsEnd + 3, idEnd, IdentStops(pat));
    assert |ns| == nsEnd - p - 9 && |id| == idEnd - nsEnd - 3;
    RefSpanOfText(pat, text, p, ns, id);
  }

  /** A stretch of text free of stop characters, as a string, holds none. */
  lemma RunHasNoStops(text: string, a: nat, e: nat, stops: set<char>)
    requires a <= e <= |text|
    requires forall k :: a <= k < e ==> text[k] !in stops
    ensures forall c :: c in text[a..e] ==> c !in stops
  {
    forall c | c in text[a..e]
      ensures c !in stops
    {
      var k :| 0 <= k < e - a && text[a..e][k] == c;
      assert text[a + k] == c;
    }
  }

  /** A slice of a slice is a slice of the whole. */
  lemma SliceOfSlice(t: string, a: nat, b: nat, i: nat, j: nat)
    requires i <= j && a + j <= b <= |t|
    ensures t[a..b][i..j] == t[a + i..a + j]
  {
    assert forall k :: 0 <= k < j - i ==> t[a..b][i..j][k] == t[a + i + k];
  }

  /** The positions of `IsRefSpan`, read off the text itself. */
  lemma RefSpanOfText(pat: Pattern, text: string, p: nat, ns: string, id: string)
    requires p + 13 + |ns| + |id| <= |text|
    requires ns != [] && (forall c :: c in ns ==> c !in Quotes)
    requires id != [] && (forall c :: c in id ==> c !in IdentStops(pat))
    requires IsCallName(pat, text[p..p + 8]) && text[p + 8] in Quotes
    requires text[p + 9..p + 9 + |ns|] == ns && text[p + 9 + |ns|] in Quotes
    requires text[p + 10 + |ns|..p + 12 + |ns|] == ", "
    requires text[p + 12 + |ns|..p + 12 + |ns| + |id|] == id
    requires text[p + 12 + |ns| + |id|] in Closers(pat)
    ensures IsRefSpan(pat, text[p..p + 13 + |ns| + |id|], ns, id)
  {
    var e := p + 13 + |ns| + |id|;
    SliceOfSlice(text, p, e, 0, 8);
    SliceOfSlice(text, p, e, 9, 9 + |ns|);
    SliceOfSlice(text, p, e, 10 + |ns|, 12 + |ns|);
    SliceOfSlice(text, p, e, 12 + |ns|, 12 + |ns| + |id|);
  }

  /** The match of `pat` that starts at `p`, if there is one. */
  function MatchAt(pat: Pattern, text: string, p: nat): (r: Option<Match>)
    ensures r.Some? ==> r.value.start == p < r.value.end <= |text|
    ensures r.Some? ==> AtLineStart(text, p)
  {
    if p > |text| || !AtLineStart(text, p) then None
    else if pat == DependPattern then MatchDependAt(text, p)
    else MatchRefAt(pat, text, p)
  }

  /** Whatever `MatchAt` returns is a match of the pattern. */
  lemma MatchAtSound(pat: Pattern, text: string, p: nat)
    requires MatchAt(pat, text, p).Some?
    ensures IsMatch(pat, text, MatchAt(pat, text, p).value)
  {
    if pat == DependPattern {
      MatchDependAtSound(text, p);
    } else {
      MatchRefAtSound(pat, text, p);
    }
  }

  /** A greedy run is determined by where it stops. */
  lemma RunEndAt(text: string, p: nat, stops: set<char>, e: nat)
    requires p <= e <= |text|
    requires forall k :: p <= k < e ==> text[k] !in stops
    requires e < |text| ==> text[e] in stops
    ensures RunEnd(text, p, stops) == e
  {
  }

  /** Reading `IsRefSpan` back as positions in the text. */
  lemma TextOfRefSpan(pat: Pattern, text: string, m: Match)
    requires m.start < m.end <= |text| && m.capture.RefCapture?
    requires IsRefSpan(pat, text[m.start..m.end], m.capture.namespace, m.capture.ident)
    ensures var p, ns, id := m.start, m.capture.namespace, m.capture.ident;
            && m.end == p + 13 + |ns| + |id|
            && IsCallName(pat, text[p..p + 8]) && text[p + 8] in Quotes
            && text[p + 9..p + 9 + |ns|] == ns && text[p + 9 + |ns|] in Quotes
            && text[p + 10 + |ns|..p + 12 + |ns|] == ", "
            && text[p + 12 + |ns|..p + 12 + |ns| + |id|] == id
            && text[m.end - 1] in Closers(pat)
  {
    var p, ns, id := m.start, m.capture.namespace, m.capture.ident;
    var e := m.end;
    SliceOfSlice(text, p, e, 0, 8);
    SliceOfSlice(text, p, e, 9, 9 + |ns|);
    SliceOfSlice(text, p, e, 10 + |ns|, 12 + |ns|);
    SliceOfSlice(text, p, e, 12 + |ns|, 12 + |ns| + |id|);
  }

  lemma MatchDependAtComplete(text: string, m: Match)
    requires IsMatch(DependPattern, text, m)
    ensures MatchDependAt(text, m.start) == Some(m)
  {
    var p := m.start;
    var s := text[p..m.end];
    var g := m.capture.glob;
    assert text[p..p + 10] == s[..10];
    assert forall k :: p + 10 <= k < m.end ==> text[k] == g[k - p - 10];
    RunEndAt(text, p + 10, {'\n'}, m.end);
    assert text[p + 10..m.end] == s[10..];
  }

  /** A captured run, seen in the text, holds none of its stop characters. */
  lemma RunOfCapture(text: string, a: nat, w: string, stops: set<char>)
    requires a + |w| <= |text| && text[a..a + |w|] == w
    requires forall c :: c in w ==> c !in stops
    ensures forall k :: a <= k < a + |w| ==> text[k] !in stops
  {
    forall k | a <= k < a + |w|
      ensures text[k] !in stops
    {
      assert text[k] == w[k - a];
    }
  }

  /** The tests `MatchRefAt` makes at `p`, when its namespace run stops at
      `nsEnd` and its identifier run at `idEnd`. */
  predicate RefTestsPass(pat: Pattern, text: string, p: nat, nsEnd: nat, idEnd: nat)
  {
    && pat != DependPattern && p <= |text| && AtLineStart(text, p)
    && p + 9 <= |text| && IsCallName(pat, text[p..p + 8]) && text[p + 8] in Quotes
    && RunEnd(text, p + 9, Quotes) == nsEnd
    && nsEnd != p + 9 && nsEnd + 3 <= |text| && text[nsEnd + 1..nsEnd + 3] == ", "
    && RunEnd(text, nsEnd + 3, IdentStops(pat)) == idEnd
    && idEnd != nsEnd + 3 && idEnd < |text| && text[idEnd] in Closers(pat)
  }

  /** `MatchRefAt` succeeds once each of its tests passes. */
  lemma MatchRefAtPasses(pat: Pattern, text: string, p: nat, nsEnd: nat, idEnd: nat)
    requires RefTestsPass(pat, text, p, nsEnd, idEnd)
    ensures MatchRefAt(pat, text, p) == Some(RefMatchOf(text, p, nsEnd, idEnd))
  {
  }

  /** The capture a reference match must have when its runs stop at
      `nsEnd` and `idEnd`. */
  function RefMatchOf(text: string, p: nat, nsEnd: nat, idEnd: nat): (m: Match)
    requires p + 9 <= nsEnd && nsEnd + 3 <= idEnd <= |text|
    ensures m.start == p && m.end == idEnd + 1
  {
    Match(p, idEnd + 1, RefCapture(text[p + 9..nsEnd], text[nsEnd + 3..idEnd]))
  }

  /** A reference match passes every test of `MatchRefAt` at its start,
      and it is the match those tests build. */
  lemma RefMatchTests(pat: Pattern, text: string, m: Match)
    requires IsMatch(pat, text, m) && pat != DependPattern
    ensures var nsEnd := m.start + 9 + |m.capture.namespace|;
            var idEnd := nsEnd + 3 + |m.capture.ident|;
            && RefTestsPass(pat, text, m.start, nsEnd, idEnd)
            && m == RefMatchOf(text, m.start, nsEnd, idEnd)
  {
    TextOfRefSpan(pat, text, m);
    RefMatchRuns(pat, text, m);
  }

  /** Where the two greedy runs of a reference match stop. */
  lemma RefMatchRuns(pat: Pattern, text: string, m: Match)
    requires IsMatch(pat, text, m) && pat != DependPattern
    ensures var p, ns, id := m.start, m.capture.namespace, m.capture.ident;
            && RunEnd(text, p + 9, Quotes) == p + 9 + |ns|
            && RunEnd(text, p + 9 + |ns| + 3, IdentStops(pat)) == p + 9 + |ns| + 3 + |id|
  {
    var p, ns, id := m.start, m.capture.namespace, m.capture.ident;
    TextOfRefSpan(pat, text, m);
    RunOfCapture(text, p + 9, ns, Quotes);
    RunEndAt(text, p + 9, Quotes, p + 9 + |ns|);
    RunOfCapture(text, p + 12 + |ns|, id, IdentStops(pat));
    RunEndAt(text, p + 12 + |ns|, IdentStops(pat), p + 12 + |ns| + |id|);
  }

  lemma MatchRefAtComplete(pat: Pattern, text: string, m: Match)
    requires IsMatch(pat, text, m) && pat != DependPattern
    ensures MatchRefAt(pat, text, m.start) == Some(m)
  {
    var nsEnd := m.start + 9 + |m.capture.namespace|;
    var idEnd := nsEnd + 3 + |m.capture.ident|;
    RefMatchTests(pat, text, m);
    MatchRefAtPasses(pat, text, m.start, nsEnd, idEnd);
  }

  /** The converse of `MatchAt`'s contract: every match the pattern admits
      at a position is the one `MatchAt` finds there.  With that contract
      this makes `MatchAt` exactly the regular expression anchored at `p`. */
  lemma MatchAtComplete(pat: Pattern, text: string, m: Match)
    requires IsMatch(pat, text, m)
    ensures MatchAt(pat, text, m.start) == Some(m)
  {
    if pat == DependPattern {
      MatchDependAtComplete(text, m);
    } else {
      MatchRefAtComplete(pat, text, m);
    }
  }

  /** A matcher over a text of length `n`: for each position, the match
      that starts there, if any, ending within the text. */
  ghost predicate ValidMatcher(f: nat -> Option<Match>, n: nat)
  {
    forall q: nat :: f(q).Some? ==> f(q).value.start == q < f(q).value.end <= n
  }

  /** The compiled pattern `pat`, anchored at each position of `text`. */
  function Matcher(pat: Pattern, text: string): (f: nat -> Option<Match>)
    ensures ValidMatcher(f, |text|)
    ensures forall q: nat :: f(q) == MatchAt(pat, text, q)
  {
    (q: nat) => MatchAt(pat, text, q)
  }

  /** `findall` from position `pos`: try each position in turn; after a
      match, carry on from its end. */
  function Scan(f: nat -> Option<Match>, n: nat, pos: nat): (ms: seq<Match>)
    requires ValidMatcher(f, n) && pos <= n
    ensures forall i :: 0 <= i < |ms| ==> pos <= ms[i].start < ms[i].end <= n
    ensures forall i, j :: 0 <= i < j < |ms| ==> ms[i].end <= ms[j].start
    decreases n - pos
  {
    if pos == n then []
    else
      match f(pos)
      case Some(m) => [m] + Scan(f, n, m.end)
      case None => Scan(f, n, pos + 1)
  }

  /** Every non-overlapping match of `pat` in `text`, left to right, as
      Python's `findall` reports them, keeping the spans beside the
      captures. */
  function FindAll(pat: Pattern, text: string): (ms: seq<Match>)
    ensures forall i :: 0 <= i < |ms| ==> ms[i].start < ms[i].end <= |text|
    ensures forall i, j :: 0 <= i < j < |ms| ==> ms[i].end <= ms[j].start
  {
    Scan(Matcher(pat, text), |text|, 0)
  }

  lemma ScanStepNone(f: nat -> Option<Match>, n: nat, pos: nat)
    requires ValidMatcher(f, n) && pos < n && f(pos).None?
    ensures Scan(f, n, pos) == Scan(f, n, pos + 1)
  {
  }

  lemma ScanStepSome(f: nat -> Option<Match>, n: nat, pos: nat, m: Match)
    requires ValidMatcher(f, n) && pos < n && f(pos) == Some(m)
    ensures Scan(f, n, pos) == [m] + Scan(f, n, m.end)
  {
  }

  /** Each element `Scan` returns is the match the matcher finds at its own
      start. */
  lemma {:induction false} ScanAt(f: nat -> Option<Match>, n: nat, pos: nat, i: nat)
    requires ValidMatcher(f, n) && pos <= n && i < |Scan(f, n, pos)|
    ensures f(Scan(f, n, pos)[i].start) == Some(Scan(f, n, pos)[i])
    decreases n - pos
  {
    var r := f(pos);
    if r.Some? {
      ScanStepSome(f, n, pos, r.value);
      if i > 0 {
        ScanAt(f, n, r.value.end, i - 1);
        assert Scan(f, n, pos)[i] == Scan(f, n, r.value.end)[i - 1];
      }
    } else {
      ScanStepNone(f, n, pos);
      ScanAt(f, n, pos + 1, i);
    }
  }

  /** `Scan` passes over positions where nothing matches. */
  lemma {:induction false} ScanSkips(f: nat -> Option<Match>, n: nat, pos: nat, end: nat)
    requires ValidMatcher(f, n) && pos <= end <= n
    requires forall q: nat :: pos <= q < end ==> f(q).None?
    ensures Scan(f, n, pos) == Scan(f, n, end)
    decreases end - pos
  {
    if pos < end {
      ScanStepNone(f, n, pos);
      ScanSkips(f, n, pos + 1, end);
    }
  }

  /** Every position from `pos` on where the matcher matches is either the
      start of a match `Scan` returns or lies inside one: a match is only
      ever missed when an earlier match consumed its start. */
  lemma {:induction false} ScanCovers(f: nat -> Option<Match>, n: nat, pos: nat, p: nat)
    requires ValidMatcher(f, n) && pos <= p < n && f(p).Some?
    ensures exists i :: 0 <= i < |Scan(f, n, pos)| &&
              Scan(f, n, pos)[i].start <= p < Scan(f, n, pos)[i].end
    decreases n - pos
  {
    var ms := Scan(f, n, pos);
    var r := f(pos);
    if r.Some? {
      var m := r.value;
      ScanStepSome(f, n, pos, m);
      if p < m.end {
        assert ms[0].start <= p < ms[0].end;
      } else {
        ScanCovers(f, n, m.end, p);
        var rest := Scan(f, n, m.end);
        var i :| 0 <= i < |rest| && rest[i].start <= p < rest[i].end;
        assert ms[i + 1] == rest[i];
      }
    } else {
      ScanStepNone(f, n, pos);
      ScanCovers(f, n, pos + 1, p);
    }
  }

  /** Everything `findall` returns is a match of the pattern. */
  lemma FindAllSound(pat: Pattern, text: string, i: nat)
    requires i < |FindAll(pat, text)|
    ensures IsMatch(pat, text, FindAll(pat, text)[i])
  {
    var f := Matcher(pat, text);
    ScanAt(f, |text|, 0, i);
    MatchAtSound(pat, text, FindAll(pat, text)[i].start);
  }

  /** The load and save scanners capture (namespace, identifier) pairs,
      the depend scanner a glob text free of newlines. */
  lemma FindAllCaptures(pat: Pattern, text: string)
    ensures forall i :: 0 <= i < |FindAll(pat, text)| ==>
              if pat == DependPattern then
                FindAll(pat, text)[i].capture.GlobCapture? && '\n' !in FindAll(pat, text)[i].capture.glob
              else
                FindAll(pat, text)[i].capture.RefCapture?
  {
    forall i | 0 <= i < |FindAll(pat, text)|
      ensures if pat == DependPattern then
                FindAll(pat, text)[i].capture.GlobCapture? && '\n' !in FindAll(pat, text)[i].capture.glob
              else
                FindAll(pat, text)[i].capture.RefCapture?
    {
      FindAllSound(pat, text, i);
    }
  }

  /** No position strictly inside a newline-free stretch starts a line. */
  lemma NoLineStartWithin(text: string, a: nat, b: nat)
    requires a <= b <= |text| && '\n' !in text[a..b]
    ensures forall q :: a < q <= b ==> !AtLineStart(text, q)
  {
    forall q | a < q <= b
      ensures !AtLineStart(text, q)
    {
      assert text[q - 1] == text[a..b][q - 1 - a];
    }
  }

  /** Every match of the pattern in the text is found by `findall`, unless
      its start lies strictly inside an earlier match that was found. */
  lemma FindAllFindsVisibleMatches(pat: Pattern, text: string, m: Match)
    requires IsMatch(pat, text, m)
    ensures exists i :: 0 <= i < |FindAll(pat, text)| &&
              (FindAll(pat, text)[i] == m ||
               FindAll(pat, text)[i].start < m.start < FindAll(pat, text)[i].end)
  {
    var f := Matcher(pat, text);
    MatchAtComplete(pat, text, m);
    ScanCovers(f, |text|, 0, m.start);
    var ms := FindAll(pat, text);
    var i :| 0 <= i < |ms| && ms[i].start <= m.start < ms[i].end;
    if ms[i].start == m.start {
      ScanAt(f, |text|, 0, i);
    }
  }

  /** Depend directives never hide one another: a depend match never spans
      a newline, so every one of them is found. */
  lemma FindAllFindsEveryDepend(text: string, m: Match)
    requires IsMatch(DependPattern, text, m)
    ensures m in FindAll(DependPattern, text)
  {
    FindAllFindsVisibleMatches(DependPattern, text, m);
    var ms := FindAll(DependPattern, text);
    var i :| 0 <= i < |ms| && (ms[i] == m || ms[i].start < m.start < ms[i].end);
    FindAllSound(DependPattern, text, i);
    DependsDoNotNest(text, ms[i], m);
  }

  /** No depend match starts strictly inside another: it would need the
      newline before it, which a depend line does not hold. */
  lemma DependsDoNotNest(text: string, o: Match, m: Match)
    requires IsMatch(DependPattern, text, o) && IsMatch(DependPattern, text, m)
    ensures !(o.start < m.start < o.end)
  {
    if o.start < m.start < o.end {
      NoNewlineInsideDepend(text, o, m.start - 1);
    }
  }

  /** A depend match holds no newline. */
  lemma NoNewlineInsideDepend(text: string, o: Match, k: nat)
    requires IsMatch(DependPattern, text, o) && o.start <= k < o.end
    ensures text[k] != '\n'
  {
    var g := o.capture.glob;
    assert text[k] == text[o.start..o.end][k - o.start];
    if k - o.start >= 10 {
      assert text[k] == g[k - o.start - 10];
    }
  }

  /** A script with one load line and one save line. */
  const LoadLine: string := "pv_load('a', x)"
  const SaveLine: string := "pv_save('b', y)"
  const LoadThenSave: string := LoadLine + "\n" + SaveLine + "\n"

  lemma LoadThenSaveText()
    ensures |LoadThenSave| == 32 && LoadThenSave[15] == '\n' && LoadThenSave[31] == '\n'
    ensures LoadThenSave[0..15] == LoadLine && LoadThenSave[16..31] == SaveLine
  {
    assert LoadThenSave[16..31] == SaveLine by {
      assert |LoadLine| == 15 && |SaveLine| == 15;
      assert forall k :: 0 <= k < 15 ==> LoadThenSave[16 + k] == SaveLine[k];
    }
  }

  lemma LoadLineCall()
    ensures |LoadLine| == 15 && LoadLine[0..8] == "pv_load(" && LoadLine[0..10] != DependMarker
  {
    var t := LoadLine;
    assert t[0] == 'p' && t[1] == 'v' && t[2] == '_' && t[3] == 'l' && t[4] == 'o' && t[5] == 'a' && t[6] == 'd' && t[7] == '(';
    assert t[0..10][0] == t[0] && DependMarker[0] == '#';
  }

  lemma LoadLineArgs()
    ensures |LoadLine| == 15
    ensures LoadLine[8] == '\'' && LoadLine[10] == '\'' && LoadLine[14] == ')'
    ensures LoadLine[11..13] == ", " && LoadLine[9..10] == "a" && LoadLine[13..14] == "x"
  {
    var t := LoadLine;
    assert t[9] == 'a' && t[11] == ',' && t[12] == ' ' && t[13] == 'x';
  }

  lemma LoadLineText()
    ensures |LoadLine| == 15 && '\n' !in LoadLine
    ensures LoadLine[0..8] == "pv_load(" && LoadLine[0..10] != DependMarker
    ensures LoadLine[8] == '\'' && LoadLine[10] == '\'' && LoadLine[14] == ')'
    ensures LoadLine[11..13] == ", " && LoadLine[9..10] == "a" && LoadLine[13..14] == "x"
  {
    LoadLineCall();
    LoadLineArgs();
    assert forall k | 0 <= k < 15 :: LoadLine[k] != '\n';
  }

  lemma SaveLineCall()
    ensures |SaveLine| == 15 && SaveLine[0..8] == "pv_save(" && SaveLine[0..10] != DependMarker
  {
    var t := SaveLine;
    assert t[0] == 'p' && t[1] == 'v' && t[2] == '_' && t[3] == 's' && t[4] == 'a' && t[5] == 'v' && t[6] == 'e' && t[7] == '(';
    assert t[0..10][0] == t[0] && DependMarker[0] == '#';
  }

  lemma SaveLineArgs()
    ensures |SaveLine| == 15
    ensures SaveLine[8] == '\'' && SaveLine[10] == '\'' && SaveLine[14] == ')'
    ensures SaveLine[11..13] == ", " && SaveLine[9..10] == "b" && SaveLine[13..14] == "y"
  {
    var t := SaveLine;
    assert t[9] == 'b' && t[11] == ',' && t[12] == ' ' && t[13] == 'y';
  }

  lemma SaveLineText()
    ensures |SaveLine| == 15 && '\n' !in SaveLine
    ensures SaveLine[0..8] == "pv_save(" && SaveLine[0..10] != DependMarker
    ensures SaveLine[8] == '\'' && SaveLine[10] == '\'' && SaveLine[14] == ')'
    ensures SaveLine[11..13] == ", " && SaveLine[9..10] == "b" && SaveLine[13..14] == "y"
  {
    SaveLineCall();
    SaveLineArgs();
    assert forall k | 0 <= k < 15 :: SaveLine[k] != '\n';
  }

  /** The first line of `LoadThenSave`, position by position. */
  lemma LoadThenSaveFirst()
    ensures |LoadThenSave| == 32 && LoadThenSave[15] == '\n'
    ensures LoadThenSave[0..8] == "pv_load(" && LoadThenSave[0..10] != DependMarker
    ensures LoadThenSave[8] == '\'' && LoadThenSave[10] == '\'' && LoadThenSave[14] == ')'
    ensures LoadThenSave[11..13] == ", " && LoadThenSave[9..10] == "a" && LoadThenSave[13..14] == "x"
  {
    var t := LoadThenSave;
    LoadThenSaveText();
    LoadLineText();
    SliceOfSlice(t, 0, 15, 0, 8);
    SliceOfSlice(t, 0, 15, 0, 10);
    SliceOfSlice(t, 0, 15, 11, 13);
    SliceOfSlice(t, 0, 15, 9, 10);
    SliceOfSlice(t, 0, 15, 13, 14);
    assert t[8] == t[0..15][8] && t[10] == t[0..15][10] && t[14] == t[0..15][14];
  }

  /** The second line of `LoadThenSave`, position by position. */
  lemma LoadThenSaveSecond()
    ensures |LoadThenSave| == 32 && LoadThenSave[31] == '\n'
    ensures LoadThenSave[16..24] == "pv_save(" && LoadThenSave[16..26] != DependMarker
    ensures LoadThenSave[24] == '\'' && LoadThenSave[26] == '\'' && LoadThenSave[30] == ')'
    ensures LoadThenSave[27..29] == ", " && LoadThenSave[25..26] == "b" && LoadThenSave[29..30] == "y"
  {
    var t := LoadThenSave;
    LoadThenSaveText();
    SaveLineText();
    SliceOfSlice(t, 16, 31, 0, 8);
    SliceOfSlice(t, 16, 31, 0, 10);
    SliceOfSlice(t, 16, 31, 11, 13);
    SliceOfSlice(t, 16, 31, 9, 10);
    SliceOfSlice(t, 16, 31, 13, 14);
    assert t[24] == t[16..31][8] && t[26] == t[16..31][10] && t[30] == t[16..31][14];
  }

  /** Only positions 0, 16 and 32 of `LoadThenSave` start a line. */
  lemma LoadThenSaveLines()
    ensures forall q :: 0 <= q <= 32 && AtLineStart(LoadThenSave, q) ==> q == 0 || q == 16 || q == 32
  {
    LoadThenSaveText();
    LoadLineText();
    SaveLineText();
    NoLineStartWithin(LoadThenSave, 0, 15);
    NoLineStartWithin(LoadThenSave, 16, 31);
  }

  lemma LoadThenSaveLoads()
    ensures FindAll(LoadPattern, LoadThenSave) == [Match(0, 15, RefCapture("a", "x"))]
  {
    var text := LoadThenSave;
    LoadThenSaveFirst();
    LoadThenSaveSecond();
    LoadThenSaveLines();
    RunEndAt(text, 9, Quotes, 10);
    RunEndAt(text, 13, IdentStops(LoadPattern), 14);
    MatchRefAtPasses(LoadPattern, text, 0, 10, 14);
    assert "pv_save("[3] != "pv_load("[3];
    ScanSkips(Matcher(LoadPattern, text), 32, 15, 32);
  }

  lemma LoadThenSaveSaves()
    ensures FindAll(SavePattern, LoadThenSave) == [Match(16, 31, RefCapture("b", "y"))]
  {
    var text := LoadThenSave;
    LoadThenSaveFirst();
    LoadThenSaveSecond();
    LoadThenSaveLines();
    RunEndAt(text, 25, Quotes, 26);
    RunEndAt(text, 29, IdentStops(SavePattern), 30);
    MatchRefAtPasses(SavePattern, text, 16, 26, 30);
    assert "pv_load("[3] != "pv_save("[3] && "pv_load("[3] != "pv_call("[3];
    var f := Matcher(SavePattern, text);
    ScanSkips(f, 32, 0, 16);
    ScanStepSome(f, 32, 16, Match(16, 31, RefCapture("b", "y")));
    ScanSkips(f, 32, 31, 32);
  }

  lemma LoadThenSaveDepends()
    ensures FindAll(DependPattern, LoadThenSave) == []
  {
    LoadThenSaveFirst();
    LoadThenSaveSecond();
    LoadThenSaveLines();
    ScanSkips(Matcher(DependPattern, LoadThenSave), 32, 0, 32);
  }

  /** A text whose first load's namespace runs across a newline. */
  const NestedLoads: string := "pv_load('\npv_load(', x', y)"

  lemma NestedLoadsCalls()
    ensures |NestedLoads| == 27
    ensures NestedLoads[0..8] == "pv_load(" && NestedLoads[10..18] == "pv_load("
  {
    var t := NestedLoads;
    assert t[0..8] == "pv_load(" by {
      assert t[0] == 'p' && t[1] == 'v' && t[2] == '_' && t[3] == 'l';
      assert t[4] == 'o' && t[5] == 'a' && t[6] == 'd' && t[7] == '(';
    }
    assert t[10..18] == "pv_load(" by {
      assert t[10] == 'p' && t[11] == 'v' && t[12] == '_' && t[13] == 'l';
      assert t[14] == 'o' && t[15] == 'a' && t[16] == 'd' && t[17] == '(';
    }
  }

  lemma NestedLoadsChars()
    ensures |NestedLoads| == 27 && NestedLoads[9] == '\n' && NestedLoads[26] == ')'
    ensures NestedLoads[8] == '\'' && NestedLoads[18] == '\'' && NestedLoads[22] == '\''
  {
  }

  lemma NestedLoadsSeparators()
    ensures |NestedLoads| == 27
    ensures NestedLoads[19..21] == ", " && NestedLoads[23..25] == ", "
    ensures NestedLoads[19..22] == ", x" && NestedLoads[25..26] == "y"
  {
    var t := NestedLoads;
    assert t[19] == ',' && t[20] == ' ' && t[21] == 'x';
    assert t[23] == ',' && t[24] == ' ' && t[25] == 'y';
  }

  lemma NestedLoadsCaptures()
    ensures |NestedLoads| == 27
    ensures NestedLoads[9..18] == "\npv_load(" && NestedLoads[21..26] == "x', y"
  {
    var t := NestedLoads;
    NestedLoadsCalls();
    assert t[9..18] == [t[9]] + t[10..18];
    assert t[21] == 'x' && t[22] == '\'' && t[23] == ',' && t[24] == ' ' && t[25] == 'y';
  }

  /** The characters and slices of `NestedLoads` that the matcher tests. */
  lemma NestedLoadsText()
    ensures |NestedLoads| == 27 && NestedLoads[9] == '\n' && NestedLoads[26] == ')'
    ensures NestedLoads[0..8] == "pv_load(" && NestedLoads[10..18] == "pv_load("
    ensures NestedLoads[8] == '\'' && NestedLoads[18] == '\'' && NestedLoads[22] == '\''
    ensures NestedLoads[19..21] == ", " && NestedLoads[23..25] == ", "
    ensures NestedLoads[9..18] == "\npv_load(" && NestedLoads[21..26] == "x', y"
    ensures NestedLoads[19..22] == ", x" && NestedLoads[25..26] == "y"
  {
    NestedLoadsCalls();
    NestedLoadsChars();
    NestedLoadsSeparators();
    NestedLoadsCaptures();
  }

  /** The tests `MatchRefAt` makes of the outer and of the inner load. */
  lemma NestedLoadsTests()
    ensures |NestedLoads| == 27 && AtLineStart(NestedLoads, 10)
    ensures NestedLoads[0..8] == "pv_load(" && NestedLoads[10..18] == "pv_load("
    ensures NestedLoads[8] in Quotes && NestedLoads[18] in Quotes && NestedLoads[26] == ')'
    ensures NestedLoads[19..21] == ", " && NestedLoads[23..25] == ", "
    ensures NestedLoads[9..18] == "\npv_load(" && NestedLoads[21..26] == "x', y"
    ensures NestedLoads[19..22] == ", x" && NestedLoads[25..26] == "y"
    ensures RunEnd(NestedLoads, 9, Quotes) == 18 && RunEnd(NestedLoads, 19, Quotes) == 22
    ensures RunEnd(NestedLoads, 21, IdentStops(LoadPattern)) == 26
    ensures RunEnd(NestedLoads, 25, IdentStops(LoadPattern)) == 26
  {
    var text := NestedLoads;
    NestedLoadsText();
    assert forall k :: 9 <= k < 18 ==> text[k] == text[9..18][k - 9];
    RunEndAt(text, 9, Quotes, 18);
    assert forall k :: 19 <= k < 22 ==> text[k] == text[19..22][k - 19];
    RunEndAt(text, 19, Quotes, 22);
    assert forall k :: 21 <= k < 26 ==> text[k] == text[21..26][k - 21];
    RunEndAt(text, 21, IdentStops(LoadPattern), 26);
    RunEndAt(text, 25, IdentStops(LoadPattern), 26);
  }

  lemma NestedLoadsOuter()
    ensures MatchAt(LoadPattern, NestedLoads, 0)
            == Some(Match(0, 27, RefCapture("\npv_load(", "x', y")))
  {
    NestedLoadsTests();
    MatchRefAtPasses(LoadPattern, NestedLoads, 0, 18, 26);
  }

  lemma NestedLoadsInner()
    ensures MatchAt(LoadPattern, NestedLoads, 10)
            == Some(Match(10, 27, RefCapture(", x", "y")))
  {
    NestedLoadsTests();
    MatchRefAtPasses(LoadPattern, NestedLoads, 10, 22, 26);
  }

  /** A load whose namespace runs across a newline can swallow a line that
      is itself a load: the second line of `NestedLoads` matches the load
      pattern, yet `findall` reports only the outer load. */
  lemma LoadHidesInnerLoad()
    ensures IsMatch(LoadPattern, NestedLoads, Match(10, 27, RefCapture(", x", "y")))
    ensures FindAll(LoadPattern, NestedLoads) == [Match(0, 27, RefCapture("\npv_load(", "x', y"))]
  {
    NestedLoadsOuter();
    NestedLoadsInner();
    NestedLoadsText();
    MatchAtSound(LoadPattern, NestedLoads, 10);
    ScanStepSome(Matcher(LoadPattern, NestedLoads), 27, 0, Match(0, 27, RefCapture("\npv_load(", "x', y")));
  }
}
