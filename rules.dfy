/**
 * The build rules of one cluster: one rule per R script, producing the
 * artifacts the script saves, then one rule per R Markdown report,
 * producing its PDF; and the aggregate target listing every rule's
 * destinations.
 */
module Rules {
  import opened Descriptor

  /** A rule of the generated makefile.  Script rules also carry the
      files named by depend directives; report rules have no such field. */
  datatype Rule =
    | ScriptRule(dest: seq<string>, src: seq<string>, depends: seq<string>, task: string)
    | ReportRule(dest: seq<string>, src: seq<string>, task: string)

  /** The recipe that runs an R script verbosely. */
  const ScriptTask: string := "Rscript -e \"options(paramvalf_verbose = TRUE); source('$<')\""

  /** The recipe that renders the report `filename`. */
  function RenderTask(filename: string): (task: string)
  {
    "Rscript -e \"rmarkdown::render('" + filename + "')\""
  }

  /** The PDF a report of `cluster` renders to. */
  function ReportTarget(cluster: string, barename: string): (target: string)
  {
    "vignettes/" + cluster + "/" + barename + ".pdf"
  }

  /** The rule of one R script. */
  function ScriptRuleOf(f: FileDescriptor): (r: Rule)
  {
    ScriptRule(f.saves, [f.filename] + f.loads, f.depends, ScriptTask)
  }

  /** The rule of one R Markdown report. */
  function ReportRuleOf(cluster: string, f: FileDescriptor): (r: Rule)
  {
    ReportRule([ReportTarget(cluster, f.barename)], [f.filename] + f.loads, RenderTask(f.filename))
  }

  /** The rule list of a cluster: the script rules in script order, then
      the report rules in report order. */
  function MakeRules(cluster: string, scripts: seq<FileDescriptor>, reports: seq<FileDescriptor>): (make: seq<Rule>)
    ensures |make| == |scripts| + |reports|
    ensures forall i :: 0 <= i < |scripts| ==> make[i] == ScriptRuleOf(scripts[i])
    ensures forall i :: 0 <= i < |reports| ==> make[|scripts| + i] == ReportRuleOf(cluster, reports[i])
  {
    seq(|scripts|, i requires 0 <= i < |scripts| => ScriptRuleOf(scripts[i])) +
    seq(|reports|, i requires 0 <= i < |reports| => ReportRuleOf(cluster, reports[i]))
  }

  /** The rule list as `process_cluster` builds it: the script rules by a
      comprehension, then the report rules appended one by one. */
  method BuildRules(cluster: string, scripts: seq<FileDescriptor>, reports: seq<FileDescriptor>)
    returns (make: seq<Rule>)
    ensures make == MakeRules(cluster, scripts, reports)
    ensures |make| == |scripts| + |reports|
    ensures forall i :: 0 <= i < |scripts| ==>
              make[i].ScriptRule? && make[i].dest == scripts[i].saves &&
              make[i].src == [scripts[i].filename] + scripts[i].loads &&
              make[i].depends == scripts[i].depends && make[i].task == ScriptTask
    ensures forall i :: 0 <= i < |reports| ==>
              make[|scripts| + i].ReportRule? &&
              make[|scripts| + i].dest == ["vignettes/" + cluster + "/" + reports[i].barename + ".pdf"] &&
              make[|scripts| + i].src == [reports[i].filename] + reports[i].loads &&
              make[|scripts| + i].task == RenderTask(reports[i].filename)
  {
    make := seq(|scripts|, i requires 0 <= i < |scripts| => ScriptRuleOf(scripts[i]));
    for k := 0 to |reports|
      invariant |make| == |scripts| + k
      invariant make == MakeRules(cluster, scripts, reports[..k])
    {
      var f := reports[k];
      make := make + [ReportRule([ReportTarget(cluster, f.barename)], [f.filename] + f.loads, RenderTask(f.filename))];
      assert reports[..k + 1][..k] == reports[..k];
    }
    assert reports[..|reports|] == reports;
  }

  /** `make_all`: every rule's destinations, rule by rule, in order. */
  function MakeAll(make: seq<Rule>): (all: seq<string>)
    ensures forall i, j :: 0 <= i < |make| && 0 <= j < |make[i].dest| ==> make[i].dest[j] in all
  {
    if make == [] then [] else make[0].dest + MakeAll(make[1..])
  }

  /** The aggregate target of a concatenation of rule lists. */
  lemma {:induction false} MakeAllAppend(a: seq<Rule>, b: seq<Rule>)
    ensures MakeAll(a + b) == MakeAll(a) + MakeAll(b)
    decreases |a|
  {
    if a == [] {
      assert a + b == b;
    } else {
      assert (a + b)[1..] == a[1..] + b;
      MakeAllAppend(a[1..], b);
    }
  }

  /** A path is an aggregate target exactly when some rule lists it as a
      destination. */
  lemma {:induction false} MakeAllMembers(make: seq<Rule>, x: string)
    ensures x in MakeAll(make) <==>
            exists i, j :: 0 <= i < |make| && 0 <= j < |make[i].dest| && make[i].dest[j] == x
    decreases |make|
  {
    if make != [] {
      MakeAllMembers(make[1..], x);
      if exists i, j :: 0 <= i < |make| && 0 <= j < |make[i].dest| && make[i].dest[j] == x {
        var i, j :| 0 <= i < |make| && 0 <= j < |make[i].dest| && make[i].dest[j] == x;
        if i > 0 {
          assert make[1..][i - 1] == make[i];
        }
      }
      if exists i, j :: 0 <= i < |make[1..]| && 0 <= j < |make[1..][i].dest| && make[1..][i].dest[j] == x {
        var i, j :| 0 <= i < |make[1..]| && 0 <= j < |make[1..][i].dest| && make[1..][i].dest[j] == x;
        assert make[i + 1] == make[1..][i];
      }
    }
  }

  /** Every save of every script, script by script, in order. */
  function AllSaves(scripts: seq<FileDescriptor>): (saves: seq<string>)
  {
    if scripts == [] then [] else scripts[0].saves + AllSaves(scripts[1..])
  }

  /** The PDF of every report, in order. */
  function ReportTargets(cluster: string, reports: seq<FileDescriptor>): (targets: seq<string>)
  {
    seq(|reports|, i requires 0 <= i < |reports| => ReportTarget(cluster, reports[i].barename))
  }

  lemma {:induction false} MakeAllScripts(scripts: seq<FileDescriptor>)
    ensures MakeAll(seq(|scripts|, i requires 0 <= i < |scripts| => ScriptRuleOf(scripts[i]))) == AllSaves(scripts)
    decreases |scripts|
  {
    var rules := seq(|scripts|, i requires 0 <= i < |scripts| => ScriptRuleOf(scripts[i]));
    if scripts != [] {
      var rest := seq(|scripts| - 1, i requires 0 <= i < |scripts| - 1 => ScriptRuleOf(scripts[1..][i]));
      assert rules[1..] == rest;
      MakeAllScripts(scripts[1..]);
    }
  }

  lemma {:induction false} MakeAllReports(cluster: string, reports: seq<FileDescriptor>)
    ensures MakeAll(seq(|reports|, i requires 0 <= i < |reports| => ReportRuleOf(cluster, reports[i]))) ==
            ReportTargets(cluster, reports)
    decreases |reports|
  {
    var rules := seq(|reports|, i requires 0 <= i < |reports| => ReportRuleOf(cluster, reports[i]));
    if reports != [] {
      var rest := seq(|reports| - 1, i requires 0 <= i < |reports| - 1 => ReportRuleOf(cluster, reports[1..][i]));
      assert rules[1..] == rest;
      MakeAllReports(cluster, reports[1..]);
      assert ReportTargets(cluster, reports) == [ReportTarget(cluster, reports[0].barename)] + ReportTargets(cluster, reports[1..]);
    }
  }

  /** The aggregate target of a cluster is every save of every script, in
      script order, followed by the PDF of every report. */
  lemma MakeAllOfRules(cluster: string, scripts: seq<FileDescriptor>, reports: seq<FileDescriptor>)
    ensures MakeAll(MakeRules(cluster, scripts, reports)) == AllSaves(scripts) + ReportTargets(cluster, reports)
  {
    MakeAllAppend(seq(|scripts|, i requires 0 <= i < |scripts| => ScriptRuleOf(scripts[i])),
                  seq(|reports|, i requires 0 <= i < |reports| => ReportRuleOf(cluster, reports[i])));
    MakeAllScripts(scripts);
    MakeAllReports(cluster, reports);
  }

  /** Every artifact a script of the cluster saves is an aggregate target. */
  lemma SaveInMakeAll(cluster: string, scripts: seq<FileDescriptor>, reports: seq<FileDescriptor>, i: int, j: int)
    requires 0 <= i < |scripts| && 0 <= j < |scripts[i].saves|
    ensures scripts[i].saves[j] in MakeAll(MakeRules(cluster, scripts, reports))
  {
    var make := MakeRules(cluster, scripts, reports);
    assert make[i].dest[j] == scripts[i].saves[j];
    MakeAllMembers(make, scripts[i].saves[j]);
  }

  /** Two scripts that save the same artifact both contribute it: the
      aggregate target keeps duplicates. */
  lemma SharedSaveListedTwice(cluster: string, f: FileDescriptor, g: FileDescriptor, x: string)
    requires f.saves == [x] && g.saves == [x]
    ensures MakeAll(MakeRules(cluster, [f, g], [])) == [x, x]
  {
    MakeAllOfRules(cluster, [f, g], []);
    assert AllSaves([f, g]) == [x] + AllSaves([g]);
    assert AllSaves([f, g][1..]) == [x] + AllSaves([]);
  }

  /** The script and report descriptors of a cluster: every `*.R` file
      under `paramval/<cluster>` and every `*.Rmd` file under
      `vignettes/<cluster>`, in the order `glob` lists them; `read` stands
      for reading a file's text. */
  function ClusterFiles(cluster: string, glob: string -> seq<string>, read: string -> string)
    : (files: (seq<FileDescriptor>, seq<FileDescriptor>))
    ensures var scripts := glob("paramval/" + cluster + "/*.R");
            && |files.0| == |scripts|
            && forall i :: 0 <= i < |scripts| ==> files.0[i] == ProcessFile(scripts[i], read(scripts[i]), glob)
    ensures var reports := glob("vignettes/" + cluster + "/*.Rmd");
            && |files.1| == |reports|
            && forall i :: 0 <= i < |reports| ==> files.1[i] == ProcessFile(reports[i], read(reports[i]), glob)
  {
    var scripts := glob("paramval/" + cluster + "/*.R");
    var reports := glob("vignettes/" + cluster + "/*.Rmd");
    (seq(|scripts|, i requires 0 <= i < |scripts| => ProcessFile(scripts[i], read(scripts[i]), glob)),
     seq(|reports|, i requires 0 <= i < |reports| => ProcessFile(reports[i], read(reports[i]), glob)))
  }
}
