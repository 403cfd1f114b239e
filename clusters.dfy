/**
 * Cluster discovery: the clusters of a project are the top-level directory
 * "." and every sub-directory of the root directories, each listed once,
 * in the order first met.
 */
module Clusters {

  /** One entry of a directory listing (`os.DirEntry`). */
  datatype DirEntry = DirEntry(name: string, isDir: bool)

  /** The directories whose sub-directories are clusters, in scan order. */
  const RootDirs: seq<string> := ["paramval", "vignettes"]

  /** No element occurs twice. */
  predicate Distinct(s: seq<string>)
  {
    forall i, j :: 0 <= i < j < |s| ==> s[i] != s[j]
  }

  /** The names of the directory entries of a listing, in listing order. */
  function DirNames(entries: seq<DirEntry>): (names: seq<string>)
    ensures |names| <= |entries|
  {
    if entries == [] then []
    else
      var last := entries[|entries| - 1];
      DirNames(entries[..|entries| - 1]) + (if last.isDir then [last.name] else [])
  }

  /** The directory names met while scanning `roots` in order. */
  function Candidates(roots: seq<string>, scandir: string -> seq<DirEntry>): (names: seq<string>)
    ensures roots == [] ==> names == []
    ensures |roots| == 1 ==> names == DirNames(scandir(roots[0]))
  {
    if roots == [] then []
    else Candidates(roots[..|roots| - 1], scandir) + DirNames(scandir(roots[|roots| - 1]))
  }

  /** `acc` extended, name by name, with each name it does not hold yet. */
  function AppendNew(acc: seq<string>, names: seq<string>): (r: seq<string>)
    ensures |r| <= |acc| + |names|
  {
    if names == [] then acc
    else
      var before := AppendNew(acc, names[..|names| - 1]);
      var last := names[|names| - 1];
      if last in before then before else before + [last]
  }

  /** The names whose occurrence is the first one and that `acc` does not
      hold: an independent description of what `AppendNew` adds. */
  function FirstOccurrences(acc: seq<string>, names: seq<string>): (firsts: seq<string>)
  {
    if names == [] then []
    else
      var init := names[..|names| - 1];
      var last := names[|names| - 1];
      FirstOccurrences(acc, init) + (if last !in acc && last !in init then [last] else [])
  }

  /** A name ends up in the list exactly when it was there already or was
      offered. */
  lemma {:induction false} AppendNewMembers(acc: seq<string>, names: seq<string>, x: string)
    ensures x in AppendNew(acc, names) <==> x in acc || x in names
    decreases |names|
  {
    if names != [] {
      var init := names[..|names| - 1];
      AppendNewMembers(acc, init, x);
      assert names == init + [names[|names| - 1]];
    }
  }

  /** Appending only new names keeps a duplicate-free list duplicate-free. */
  lemma {:induction false} AppendNewDistinct(acc: seq<string>, names: seq<string>)
    requires Distinct(acc)
    ensures Distinct(AppendNew(acc, names))
    decreases |names|
  {
    if names != [] {
      AppendNewDistinct(acc, names[..|names| - 1]);
    }
  }

  /** `AppendNew` keeps `acc` in front and adds the first occurrences of the
      names `acc` lacks, in the order they were offered. */
  lemma {:induction false} AppendNewIsFirstOccurrences(acc: seq<string>, names: seq<string>)
    ensures AppendNew(acc, names) == acc + FirstOccurrences(acc, names)
    decreases |names|
  {
    if names != [] {
      var init := names[..|names| - 1];
      var last := names[|names| - 1];
      AppendNewIsFirstOccurrences(acc, init);
      AppendNewMembers(acc, init, last);
    }
  }

  /** A name is offered by a listing exactly when some entry is a directory
      of that name. */
  lemma {:induction false} DirNamesMembers(entries: seq<DirEntry>, x: string)
    ensures x in DirNames(entries) <==>
            exists j :: 0 <= j < |entries| && entries[j].isDir && entries[j].name == x
    decreases |entries|
  {
    if entries != [] {
      var init := entries[..|entries| - 1];
      DirNamesMembers(init, x);
      if exists j :: 0 <= j < |entries| && entries[j].isDir && entries[j].name == x {
        var j :| 0 <= j < |entries| && entries[j].isDir && entries[j].name == x;
        if j < |entries| - 1 {
          assert init[j] == entries[j];
        }
      }
    }
  }

  /** Some root directory lists a directory named `x`. */
  ghost predicate ListedDir(roots: seq<string>, scandir: string -> seq<DirEntry>, x: string)
  {
    exists k, j :: 0 <= k < |roots| && 0 <= j < |scandir(roots[k])| &&
                   scandir(roots[k])[j].isDir && scandir(roots[k])[j].name == x
  }

  /** The candidates are exactly the directories the roots list. */
  lemma {:induction false} CandidatesMembers(roots: seq<string>, scandir: string -> seq<DirEntry>, x: string)
    ensures x in Candidates(roots, scandir) <==> ListedDir(roots, scandir, x)
    decreases |roots|
  {
    if roots != [] {
      var init := roots[..|roots| - 1];
      var last := roots[|roots| - 1];
      CandidatesMembers(init, scandir, x);
      DirNamesMembers(scandir(last), x);
      if ListedDir(roots, scandir, x) {
        var k, j :| 0 <= k < |roots| && 0 <= j < |scandir(roots[k])| &&
                    scandir(roots[k])[j].isDir && scandir(roots[k])[j].name == x;
        if k < |roots| - 1 {
          assert init[k] == roots[k];
        }
      }
      if ListedDir(init, scandir, x) {
        var k, j :| 0 <= k < |init| && 0 <= j < |scandir(init[k])| &&
                    scandir(init[k])[j].isDir && scandir(init[k])[j].name == x;
        assert roots[k] == init[k];
      }
      if x in DirNames(scandir(last)) {
        var j :| 0 <= j < |scandir(last)| && scandir(last)[j].isDir && scandir(last)[j].name == x;
        assert roots[|roots| - 1] == last;
      }
    }
  }

  /** One more entry of a listing offers its name when it is a directory. */
  lemma DirNamesStep(entries: seq<DirEntry>, j: nat)
    requires j < |entries|
    ensures DirNames(entries[..j + 1]) ==
            DirNames(entries[..j]) + (if entries[j].isDir then [entries[j].name] else [])
  {
    assert entries[..j + 1][..j] == entries[..j];
  }

  /** One more root directory offers the directories it lists. */
  lemma CandidatesStep(roots: seq<string>, scandir: string -> seq<DirEntry>, i: nat)
    requires i < |roots|
    ensures Candidates(roots[..i + 1], scandir) == Candidates(roots[..i], scandir) + DirNames(scandir(roots[i]))
  {
    assert roots[..i + 1][..i] == roots[..i];
  }

  /** Offering one more name appends it exactly when it is new. */
  lemma AppendNewStep(acc: seq<string>, names: seq<string>, x: string)
    ensures AppendNew(acc, names + [x]) ==
            if x in AppendNew(acc, names) then AppendNew(acc, names) else AppendNew(acc, names) + [x]
  {
    assert (names + [x])[..|names|] == names;
  }

  /** What the cluster list holds: "." first, then the first occurrences
      of the listed directory names; no name twice; exactly "." and the
      listed directories. */
  lemma ClusterListFacts(roots: seq<string>, scandir: string -> seq<DirEntry>)
    ensures var clusters := AppendNew(["."], Candidates(roots, scandir));
            && clusters == ["."] + FirstOccurrences(["."], Candidates(roots, scandir))
            && Distinct(clusters)
            && forall x :: x in clusters <==> x == "." || ListedDir(roots, scandir, x)
  {
    var names := Candidates(roots, scandir);
    AppendNewIsFirstOccurrences(["."], names);
    AppendNewDistinct(["."], names);
    forall x
      ensures x in AppendNew(["."], names) <==> x == "." || ListedDir(roots, scandir, x)
    {
      AppendNewMembers(["."], names, x);
      CandidatesMembers(roots, scandir, x);
    }
  }

  /** The loop of `get_clusters` over the root directories `roots`. */
  method CollectClusters(roots: seq<string>, scandir: string -> seq<DirEntry>) returns (clusters: seq<string>)
    ensures clusters == AppendNew(["."], Candidates(roots, scandir))
    ensures clusters == ["."] + FirstOccurrences(["."], Candidates(roots, scandir))
    ensures Distinct(clusters)
    ensures forall x :: x in clusters <==> x == "." || ListedDir(roots, scandir, x)
  {
    clusters := ["."];
    for i := 0 to |roots|
      invariant clusters == AppendNew(["."], Candidates(roots[..i], scandir))
    {
      var entries := scandir(roots[i]);
      ghost var seen := Candidates(roots[..i], scandir);
      assert seen + DirNames(entries[..0]) == seen;
      for j := 0 to |entries|
        invariant clusters == AppendNew(["."], seen + DirNames(entries[..j]))
      {
        var it := entries[j];
        ghost var prev := clusters;
        if it.isDir {
          if !(it.name in clusters) {
            clusters := clusters + [it.name];
          }
        }
        assert clusters == AppendNew(["."], seen + DirNames(entries[..j + 1])) by {
          var before := seen + DirNames(entries[..j]);
          DirNamesStep(entries, j);
          if it.isDir {
            assert seen + DirNames(entries[..j + 1]) == before + [it.name];
            AppendNewStep(["."], before, it.name);
          } else {
            assert seen + DirNames(entries[..j + 1]) == before;
          }
        }
      }
      assert clusters == AppendNew(["."], Candidates(roots[..i + 1], scandir)) by {
        assert entries[..|entries|] == entries;
        CandidatesStep(roots, scandir, i);
      }
    }
    assert roots[..|roots|] == roots;
    ClusterListFacts(roots, scandir);
  }

  /** `get_clusters`: "." followed by the sub-directories of `paramval`
      and then of `vignettes`, each once; `scandir` stands for
      `os.scandir`, whose order is the file system's. */
  method GetClusters(scandir: string -> seq<DirEntry>) returns (clusters: seq<string>)
    ensures clusters == ["."] + FirstOccurrences(["."], Candidates(RootDirs, scandir))
    ensures Distinct(clusters)
    ensures forall x :: x in clusters <==> x == "." || ListedDir(RootDirs, scandir, x)
  {
    clusters := CollectClusters(RootDirs, scandir);
  }
}
