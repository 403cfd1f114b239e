/**
 * The file descriptor builder: what one scanned script declares.  The
 * scanners' captures are resolved to artifact paths, depend directives are
 * expanded by a glob oracle, and the file's names are sanitised for use as
 * identifiers in the generated build rules.
 */
module Descriptor {
  import opened Paths
  import opened Scanner

  /** `resolve_path`: the file that holds the artifact `ident` of namespace
      `namespace`.  The identifier text is used as written, never
      evaluated; the result is already normalised. */
  function ResolvePath(namespace: string, ident: string): (path: string)
    ensures NormPath(path) == path
  {
    var raw := "output/" + namespace + "/" + ident + ".Rdata";
    NormPathIdempotent(raw);
    NormPath(raw)
  }

  /** For a plain namespace and identifier (no '/', and a namespace that is
      not "." or "..") the artifact path is the text spelled out, verbatim. */
  lemma ResolvePathVerbatim(namespace: string, ident: string)
    requires '/' !in namespace && '/' !in ident
    requires namespace != "" && namespace != "." && namespace != ".."
    ensures ResolvePath(namespace, ident) == "output/" + namespace + "/" + ident + ".Rdata"
  {
    var file := ident + ".Rdata";
    var comps := ["output", namespace, file];
    assert '/' !in file by {
      assert forall k :: 0 <= k < |file| ==> file[k] == (if k < |ident| then ident[k] else ".Rdata"[k - |ident|]);
    }
    assert file[|file| - 1] == 'a';
    assert ".."[1] == '.';
    assert Canonical(comps, false);
    assert Join(comps) == "output/" + namespace + "/" + ident + ".Rdata" by {
      assert Join(comps[2..]) == file;
      assert Join(comps[1..]) == namespace + "/" + file;
    }
    NormPathOfRelative(comps);
  }

  /** What `process_file` returns for one script. */
  datatype FileDescriptor = FileDescriptor(
    filename: string,
    basename: string,
    barename: string,
    loads: seq<string>,
    saves: seq<string>,
    depends: seq<string>,
    loadsDepends: seq<string>)

  /** A path `normpath` leaves unchanged. */
  ghost predicate IsNormal(p: string)
  {
    NormPath(p) == p
  }

  /** Every path in the list is a fixed point of `normpath`. */
  ghost predicate AllNormal(paths: seq<string>)
  {
    forall i :: 0 <= i < |paths| ==> IsNormal(paths[i])
  }

  /** The artifact path of each load or save match, in match order. */
  function ResolveMatches(ms: seq<Match>): (paths: seq<string>)
    requires forall i :: 0 <= i < |ms| ==> ms[i].capture.RefCapture?
  {
    seq(|ms|, i requires 0 <= i < |ms| => ResolvePath(ms[i].capture.namespace, ms[i].capture.ident))
  }

  /** Each path of the list normalised, in order. */
  function NormAll(paths: seq<string>): (normal: seq<string>)
    ensures |normal| == |paths|
    ensures forall i :: 0 <= i < |paths| ==> normal[i] == NormPath(paths[i])
  {
    if paths == [] then [] else [NormPath(paths[0])] + NormAll(paths[1..])
  }

  /** Normalising every path leaves nothing further to normalise. */
  lemma NormAllNormal(paths: seq<string>)
    ensures AllNormal(NormAll(paths))
  {
    forall i | 0 <= i < |paths|
      ensures IsNormal(NormAll(paths)[i])
    {
      NormPathIdempotent(paths[i]);
    }
  }

  /** Concatenating normalised lists gives a normalised list. */
  lemma AllNormalAppend(a: seq<string>, b: seq<string>)
    requires AllNormal(a) && AllNormal(b)
    ensures AllNormal(a + b)
  {
    forall i | 0 <= i < |a + b|
      ensures IsNormal((a + b)[i])
    {
      if i >= |a| {
        assert (a + b)[i] == b[i - |a|];
      }
    }
  }

  /** The depend list: for each directive in order, the normalised paths the
      glob oracle returns for its pattern. */
  function ExpandDepends(globs: seq<string>, glob: string -> seq<string>): (paths: seq<string>)
    ensures globs == [] ==> paths == []
    ensures |globs| == 1 ==> paths == NormAll(glob(globs[0]))
  {
    if globs == [] then [] else NormAll(glob(globs[0])) + ExpandDepends(globs[1..], glob)
  }

  /** Every dependency path is normalised. */
  lemma {:induction false} ExpandDependsNormal(globs: seq<string>, glob: string -> seq<string>)
    ensures AllNormal(ExpandDepends(globs, glob))
    decreases |globs|
  {
    if globs != [] {
      NormAllNormal(glob(globs[0]));
      ExpandDependsNormal(globs[1..], glob);
      AllNormalAppend(NormAll(glob(globs[0])), ExpandDepends(globs[1..], glob));
    }
  }

  /** Expanding a list of directives is expanding each part in turn. */
  lemma {:induction false} ExpandDependsAppend(a: seq<string>, b: seq<string>, glob: string -> seq<string>)
    ensures ExpandDepends(a + b, glob) == ExpandDepends(a, glob) + ExpandDepends(b, glob)
    decreases |a|
  {
    if a != [] {
      assert (a + b)[1..] == a[1..] + b;
      ExpandDependsAppend(a[1..], b, glob);
    } else {
      assert a + b == b;
    }
  }

  /** A directive whose pattern matches no file contributes nothing. */
  lemma UnmatchedDirectiveIsSilent(a: seq<string>, g: string, b: seq<string>, glob: string -> seq<string>)
    requires glob(g) == []
    ensures ExpandDepends(a + [g] + b, glob) == ExpandDepends(a + b, glob)
  {
    assert ExpandDepends([g], glob) == [] by {
      assert NormAll(glob(g)) == [];
      assert [g][1..] == [];
    }
    ExpandDependsAppend(a + [g], b, glob);
    ExpandDependsAppend(a, [g], glob);
    ExpandDependsAppend(a, b, glob);
  }

  /** A path is a dependency exactly when it is the normalised form of a
      file some directive's pattern matches. */
  lemma {:induction false} ExpandDependsMembers(globs: seq<string>, glob: string -> seq<string>, p: string)
    ensures p in ExpandDepends(globs, glob) <==>
            exists i, j :: 0 <= i < |globs| && 0 <= j < |glob(globs[i])| && p == NormPath(glob(globs[i])[j])
    decreases |globs|
  {
    if globs != [] {
      ExpandDependsMembers(globs[1..], glob, p);
      var head := NormAll(glob(globs[0]));
      if p in head {
        var j :| 0 <= j < |head| && head[j] == p;
        assert 0 < |globs| && 0 <= j < |glob(globs[0])| && p == NormPath(glob(globs[0])[j]);
      }
      if exists i, j :: 0 <= i < |globs| && 0 <= j < |glob(globs[i])| && p == NormPath(glob(globs[i])[j]) {
        var i, j :| 0 <= i < |globs| && 0 <= j < |glob(globs[i])| && p == NormPath(glob(globs[i])[j]);
        if i == 0 {
          assert head[j] == p;
        } else {
          assert globs[1..][i - 1] == globs[i];
        }
      }
    }
  }

  /** The glob text of each depend match, in match order. */
  function DependGlobs(contents: string): (globs: seq<string>)
    ensures |globs| == |FindAll(DependPattern, contents)|
    ensures forall i :: 0 <= i < |globs| ==> '\n' !in globs[i]
    ensures forall i :: 0 <= i < |globs| ==>
              FindAll(DependPattern, contents)[i].capture.GlobCapture? &&
              globs[i] == FindAll(DependPattern, contents)[i].capture.glob
  {
    var ms := FindAll(DependPattern, contents);
    FindAllCaptures(DependPattern, contents);
    seq(|ms|, i requires 0 <= i < |ms| => ms[i].capture.glob)
  }

  /** The artifact paths named by the load (or save) calls of a script, one
      per match and in match order. */
  function RefPaths(pat: Pattern, contents: string): (paths: seq<string>)
    requires pat != DependPattern
    ensures var ms := FindAll(pat, contents);
            && |paths| == |ms|
            && forall i :: 0 <= i < |ms| ==>
                 ms[i].capture.RefCapture? && paths[i] == ResolvePath(ms[i].capture.namespace, ms[i].capture.ident)
  {
    FindAllCaptures(pat, contents);
    ResolveMatches(FindAll(pat, contents))
  }

  /** The file name with the directory removed and '-' made '_'. */
  function SafeBasename(filename: string): (basename: string)
    ensures |basename| == |Basename(filename)| && '/' !in basename && '-' !in basename
    ensures forall i :: 0 <= i < |basename| ==>
              basename[i] == (if Basename(filename)[i] == '-' then '_' else Basename(filename)[i])
  {
    ReplaceHyphens(Basename(filename))
  }

  /** The base name without its extension, '-' made '_': the name the
      generated rules use for the script. */
  function SafeBarename(filename: string): (barename: string)
    ensures '-' !in barename
    ensures |barename| <= |SafeBasename(filename)|
    ensures barename == SafeBasename(filename)[..|barename|]
    ensures |barename| == |SplitExt(Basename(filename)).0|
  {
    var b := Basename(filename);
    var root := SplitExt(b).0;
    ReplaceHyphensAppend(root, SplitExt(b).1);
    ReplaceHyphens(root)
  }

  /** The sanitised base name is the sanitised bare name followed by the
      sanitised last extension: only that extension is stripped. */
  lemma BarenameStripsExtension(filename: string)
    ensures SafeBasename(filename) == SafeBarename(filename) + ReplaceHyphens(SplitExt(Basename(filename)).1)
  {
    var b := Basename(filename);
    ReplaceHyphensAppend(SplitExt(b).0, SplitExt(b).1);
  }

  /** `process_file`: the descriptor of the script `filename` whose text is
      `contents`; `glob` stands for `glob.glob`. */
  function ProcessFile(filename: string, contents: string, glob: string -> seq<string>): (fd: FileDescriptor)
    ensures fd.filename == NormPath(filename) && NormPath(fd.filename) == fd.filename
    ensures fd.loads == RefPaths(LoadPattern, contents) && fd.saves == RefPaths(SavePattern, contents)
    ensures fd.depends == ExpandDepends(DependGlobs(contents), glob)
    ensures fd.loadsDepends == fd.loads + fd.depends
    ensures fd.basename == SafeBasename(filename) && fd.barename == SafeBarename(filename)
  {
    NormPathIdempotent(filename);
    var loads := RefPaths(LoadPattern, contents);
    var depends := ExpandDepends(DependGlobs(contents), glob);
    FileDescriptor(
      NormPath(filename),
      SafeBasename(filename),
      SafeBarename(filename),
      loads,
      RefPaths(SavePattern, contents),
      depends,
      loads + depends)
  }

  /** Every path a descriptor lists is normalised. */
  lemma ProcessFileNormal(filename: string, contents: string, glob: string -> seq<string>)
    ensures var fd := ProcessFile(filename, contents, glob);
            AllNormal(fd.loads) && AllNormal(fd.saves) && AllNormal(fd.depends) && AllNormal(fd.loadsDepends)
  {
    var fd := ProcessFile(filename, contents, glob);
    forall pat | pat != DependPattern
      ensures AllNormal(RefPaths(pat, contents))
    {
      var ms := FindAll(pat, contents);
      forall i | 0 <= i < |ms|
        ensures IsNormal(RefPaths(pat, contents)[i])
      {
      }
    }
    ExpandDependsNormal(DependGlobs(contents), glob);
    AllNormalAppend(fd.loads, fd.depends);
  }

  /** The script of one load line and one save line yields exactly one load
      and one save artifact, and no dependency. */
  lemma LoadThenSaveDescriptor(filename: string, contents: string, glob: string -> seq<string>)
    requires contents == LoadThenSave
    ensures var fd := ProcessFile(filename, contents, glob);
            && fd.loads == ["output/a/x.Rdata"]
            && fd.saves == ["output/b/y.Rdata"]
            && fd.depends == []
            && fd.loadsDepends == ["output/a/x.Rdata"]
  {
    LoadThenSaveLoadPaths(contents);
    LoadThenSaveSavePaths(contents);
    LoadThenSaveDepends();
    assert DependGlobs(contents) == [];
    assert ["output/a/x.Rdata"] + [] == ["output/a/x.Rdata"];
  }

  lemma LoadThenSaveLoadPaths(contents: string)
    requires contents == LoadThenSave
    ensures RefPaths(LoadPattern, contents) == ["output/a/x.Rdata"]
  {
    var ms := FindAll(LoadPattern, contents);
    LoadThenSaveLoads();
    var ns, id := ms[0].capture.namespace, ms[0].capture.ident;
    assert ns == "a" && id == "x";
    ResolvePathVerbatim(ns, id);
    assert "output/" + ns + "/" + id + ".Rdata" == "output/a/x.Rdata";
  }

  lemma LoadThenSaveSavePaths(contents: string)
    requires contents == LoadThenSave
    ensures RefPaths(SavePattern, contents) == ["output/b/y.Rdata"]
  {
    var ms := FindAll(SavePattern, contents);
    LoadThenSaveSaves();
    var ns, id := ms[0].capture.namespace, ms[0].capture.ident;
    assert ns == "b" && id == "y";
    ResolvePathVerbatim(ns, id);
    assert "output/" + ns + "/" + id + ".Rdata" == "output/b/y.Rdata";
  }

  // ---------------------------------------------------------------------
  // Presentation for the data-flow graph
  // ---------------------------------------------------------------------

  /** `present_name`: the path relative to the working directory,
      normalised and wrapped in double quotes; `relpath` stands for
      `os.path.relpath`, which depends on the working directory. */
  function PresentName(relpath: string -> string, name: string): (shown: string)
    ensures |shown| >= 3 && shown[0] == '"' && shown[|shown| - 1] == '"'
    ensures NormPath(shown[1..|shown| - 1]) == shown[1..|shown| - 1]
    ensures shown[1..|shown| - 1] == NormPath(relpath(name))
  {
    var inner := NormPath(relpath(name));
    NormPathIdempotent(relpath(name));
    assert ("\"" + inner + "\"")[1..|inner| + 1] == inner;
    "\"" + inner + "\""
  }

  /** Each name of the list presented, in order. */
  function PresentAll(relpath: string -> string, names: seq<string>): (shown: seq<string>)
    ensures |shown| == |names|
    ensures forall i :: 0 <= i < |names| ==> shown[i] == PresentName(relpath, names[i])
  {
    if names == [] then [] else [PresentName(relpath, names[0])] + PresentAll(relpath, names[1..])
  }

  /** `present_file_dict`: every path-bearing field presented; the bare
      name is left as it was. */
  function PresentFileDict(relpath: string -> string, fd: FileDescriptor): (shown: FileDescriptor)
    ensures shown.barename == fd.barename
    ensures |shown.loads| == |fd.loads| && |shown.saves| == |fd.saves| && |shown.depends| == |fd.depends|
    ensures fd.loadsDepends == fd.loads + fd.depends ==> shown.loadsDepends == shown.loads + shown.depends
  {
    var loadsDepends := PresentAll(relpath, fd.loadsDepends);
    PresentAllAppend(relpath, fd.loads, fd.depends);
    FileDescriptor(
      PresentName(relpath, fd.filename),
      PresentName(relpath, fd.basename),
      fd.barename,
      PresentAll(relpath, fd.loads),
      PresentAll(relpath, fd.saves),
      PresentAll(relpath, fd.depends),
      loadsDepends)
  }

  /** Each path field of a presented descriptor holds the presented form
      of the original, element by element. */
  lemma PresentFileDictFields(relpath: string -> string, fd: FileDescriptor)
    ensures var shown := PresentFileDict(relpath, fd);
            && shown.filename == PresentName(relpath, fd.filename)
            && shown.basename == PresentName(relpath, fd.basename)
            && (forall i :: 0 <= i < |fd.loads| ==> shown.loads[i] == PresentName(relpath, fd.loads[i]))
            && (forall i :: 0 <= i < |fd.saves| ==> shown.saves[i] == PresentName(relpath, fd.saves[i]))
            && (forall i :: 0 <= i < |fd.depends| ==> shown.depends[i] == PresentName(relpath, fd.depends[i]))
  {
  }

  /** Presenting a concatenation presents each part. */
  lemma PresentAllAppend(relpath: string -> string, a: seq<string>, b: seq<string>)
    ensures PresentAll(relpath, a + b) == PresentAll(relpath, a) + PresentAll(relpath, b)
  {
  }

  /** Each descriptor of the list presented, in order. */
  function PresentFileDicts(relpath: string -> string, fds: seq<FileDescriptor>): (shown: seq<FileDescriptor>)
    ensures |shown| == |fds|
    ensures forall i :: 0 <= i < |fds| ==> shown[i] == PresentFileDict(relpath, fds[i])
  {
    if fds == [] then [] else [PresentFileDict(relpath, fds[0])] + PresentFileDicts(relpath, fds[1..])
  }
}
