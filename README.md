# paramvalf dependency scanner, modelled in Dafny

paramvalf organises an R analysis into *clusters* of scripts. Each R script
in `paramval/<cluster>/` declares, in its own text, which artifacts it loads
(`pv_load("ns", id)`), which it saves or computes (`pv_save(...)`,
`pv_call(...)`) and which plain files it depends on (`# Depend: <glob>`).
`inst/scan_dependencies.py` scans those declarations and turns them into a
makefile and a data-flow graph, cluster by cluster. This project models the
logic of that script once the file contents and directory listings are in
hand:

- **Paths** (`paths.dfy`): the POSIX path functions the script relies on.
  These are `os.path.normpath`, with its one or two kept leading slashes and
  its `..` rules; `os.path.basename`; `os.path.splitext`, where leading dots
  of a name are not an extension; and `str.replace('-', '_')`.
- **Scanner** (`scanner.dfy`): the three line-anchored regular expressions.
  Each is a hand-written matcher at a line start (`MatchAt`), plus
  `findall`'s left-to-right, non-overlapping scan (`FindAll`). `IsMatch`
  states independently what a match of each expression is. The matchers are
  proved sound and complete against it. The scan is proved to find every
  match that no earlier match swallows.
- **Descriptor** (`descriptor.dfy`): `resolve_path`, `process_file` as a pure
  function of (file name, contents, glob oracle), and the quoting of names for
  the graph (`present_name`, `present_file_dict`).
- **Clusters** (`clusters.dfy`): `get_clusters`, an imperative method with
  nested loops. It is proved equal to a reference definition: "." followed by
  the first occurrences of the listed directory names.
- **Rules** (`rules.dfy`): the rule list of `process_cluster`, built as a
  comprehension followed by an append loop, and the aggregate `make_all`
  target.

Calls to the environment are parameters of the model:
- `glob.glob` is a function `string -> seq<string>`;
- reading a file is a function `string -> string`;
- `os.scandir` is a function from a directory to its `(name, isDir)` entries;
- `os.path.relpath` is a function `string -> string` that is left
  uninterpreted.

Three consequences of the code are easy to overlook:
- `depends` is not de-duplicated. Each directive contributes every normalised
  glob result, and two directives naming the same file list it twice.
- `make_all` is a concatenation, not a set. A path saved by two scripts
  appears twice (`Rules.SharedSaveListedTwice`). It also holds the PDF of
  every report besides the saved artifacts (`Rules.MakeAllOfRules`).
- A descriptor's `filename` is the normalised path that `glob` returned. It
  is not made absolute.

## Model

| member | source | states |
|---|---|---|
| `Paths.NormPath` | inst/scan_dependencies.py:29 | `os.path.normpath` as the POSIX library defines it; the result is never empty (an empty path becomes ".") |
| `Paths.NormPathIdempotent` | inst/scan_dependencies.py:29 | normalising a normalised path changes nothing, for every input path |
| `Paths.NormPathOfRelative` | inst/scan_dependencies.py:29 | a relative path with no empty, "." or misplaced ".." component is its own normal form |
| `Paths.Basename` | inst/scan_dependencies.py:43 | the base name holds no '/', is a suffix of the path, is the whole path when it has no '/', and is otherwise preceded by a '/' |
| `Paths.SplitExt` | inst/scan_dependencies.py:44 | root + extension is the name; the extension is empty or a single dot-led part with no further dot and no '/' |
| `Paths.SplitExtOfName` | inst/scan_dependencies.py:44 | a slash-free name loses an extension exactly when some dot in it follows a non-dot character |
| `Paths.ReplaceHyphens` | inst/scan_dependencies.py:47-48 | the length is kept; every '-' becomes '_' and every other character is kept |
| `Paths.ReplaceHyphensAppend` | inst/scan_dependencies.py:44-48 | replacing hyphens in a concatenation replaces them in each part separately, so it commutes with splitting off an extension |
| `Scanner.MatchDependAt` | inst/scan_dependencies.py:19 | a depend match at `p` starts at `p` and ends, non-empty, within the text; what it is and that it is the only one is stated by `Scanner.MatchDependAtSound` and `Scanner.MatchDependAtComplete` |
| `Scanner.MatchRefAt` | inst/scan_dependencies.py:18-20 | a load or save match at `p` starts at `p` and ends, non-empty, within the text; what it is and that it is the only one is stated by `Scanner.MatchRefAtSound` and `Scanner.MatchRefAtComplete` |
| `Scanner.MatchDependAtSound` | inst/scan_dependencies.py:19 | a depend match found at a line start is the marker `# Depend: ` followed by the rest of the line, ending at a newline or at the end of the text |
| `Scanner.MatchRefAtSound` | inst/scan_dependencies.py:18-20 | a load/save match found at a line start is: the call name, a quote of either kind, a non-empty quote-free namespace, a quote, `, `, a non-empty identifier free of the stop characters, and a closer |
| `Scanner.MatchAt` | inst/scan_dependencies.py:18-20 | a match is only found at a line start (the MULTILINE `^`); it starts at `p` and ends, non-empty, within the text |
| `Scanner.MatchAtSound` | inst/scan_dependencies.py:18-20 | whatever the matcher returns at a position is a match of the pattern |
| `Scanner.MatchDependAtComplete` | inst/scan_dependencies.py:19 | every depend match is the one the depend matcher returns at its start |
| `Scanner.MatchRefAtComplete` | inst/scan_dependencies.py:18-20 | every load or save match is the one the load/save matcher returns at its start: both greedy runs stop exactly where the match's captures end |
| `Scanner.MatchAtComplete` | inst/scan_dependencies.py:18-20 | conversely, every match of the pattern is what the matcher returns at its start, so matches are unique per start position |
| `Scanner.Scan` | inst/scan_dependencies.py:36-41 | for any matcher whose matches start where asked, the matches returned lie in the text from `pos` on, are non-empty, and are in order without overlapping |
| `Scanner.ScanAt` | inst/scan_dependencies.py:36-41 | each returned match is the one the matcher finds at its own start |
| `Scanner.ScanSkips` | inst/scan_dependencies.py:36-41 | positions where nothing matches are passed over one by one |
| `Scanner.ScanCovers` | inst/scan_dependencies.py:36-41 | every position where the matcher matches is the start of, or lies inside, a returned match |
| `Scanner.FindAll` | inst/scan_dependencies.py:36-41 | the matches `findall` returns lie within the text, are non-empty, and are in order without overlapping; `Scanner.FindAllSound` and `Scanner.FindAllFindsVisibleMatches` state which they are |
| `Scanner.FindAllSound` | inst/scan_dependencies.py:36-41 | every element `findall` returns is a match of the pattern |
| `Scanner.FindAllCaptures` | inst/scan_dependencies.py:36-41 | load and save scans capture (namespace, identifier) pairs; the depend scan captures glob texts with no newline |
| `Scanner.FindAllFindsVisibleMatches` | inst/scan_dependencies.py:36-37 | every match in the text is either returned, or starts strictly inside a returned match that swallows it |
| `Scanner.FindAllFindsEveryDepend` | inst/scan_dependencies.py:39-40 | every depend directive in the text is returned, because depend matches never span a newline |
| `Scanner.DependsDoNotNest` | inst/scan_dependencies.py:19 | no depend match starts strictly inside another one |
| `Scanner.NoNewlineInsideDepend` | inst/scan_dependencies.py:19 | no position inside a depend match holds a newline |
| `Scanner.LoadThenSaveLoads` | inst/scan_dependencies.py:18 | in a text with one load line and one save line, the load scan returns exactly the load, capturing ("a", "x") |
| `Scanner.LoadThenSaveSaves` | inst/scan_dependencies.py:20 | in the same text, the save scan returns exactly the save, capturing ("b", "y") |
| `Scanner.LoadThenSaveDepends` | inst/scan_dependencies.py:19 | in the same text, the depend scan returns nothing |
| `Scanner.LoadHidesInnerLoad` | inst/scan_dependencies.py:18 | a namespace that runs across a newline swallows a load that starts on the next line: that load is a match, but `findall` returns only the outer one |
| `Descriptor.ResolvePath` | inst/scan_dependencies.py:27-29 | the artifact path is a fixed point of normalisation |
| `Descriptor.ResolvePathVerbatim` | inst/scan_dependencies.py:27-29 | for a plain namespace and identifier, the path is `output/<ns>/<id>.Rdata` with the identifier text kept verbatim |
| `Descriptor.NormAll` | inst/scan_dependencies.py:39 | every glob result is normalised, one for one and in order |
| `Descriptor.DependGlobs` | inst/scan_dependencies.py:39-40 | one glob text per depend match, in match order: the i-th is the capture of the i-th match, and none holds a newline |
| `Descriptor.ExpandDepends` | inst/scan_dependencies.py:39-41 | no directive gives no dependency, and one directive gives its normalised glob results in glob order; `Descriptor.ExpandDependsAppend` extends this to any number of directives |
| `Descriptor.ExpandDependsNormal` | inst/scan_dependencies.py:39-41 | every dependency path is normalised |
| `Descriptor.ExpandDependsAppend` | inst/scan_dependencies.py:39-41 | the dependencies of a concatenation of directives are the concatenation of their dependencies, in directive order |
| `Descriptor.UnmatchedDirectiveIsSilent` | inst/scan_dependencies.py:39-41 | a directive whose glob matches nothing contributes nothing |
| `Descriptor.ExpandDependsMembers` | inst/scan_dependencies.py:39-41 | a path is a dependency exactly when it is the normalised form of a glob result of some directive |
| `Descriptor.RefPaths` | inst/scan_dependencies.py:36-37 | one artifact path per load (or save) match, in match order, each the resolved path of that match's capture; nothing is de-duplicated |
| `Descriptor.SafeBasename` | inst/scan_dependencies.py:43-47 | the sanitised base name is the base name character by character, with each '-' made '_'; it holds neither '/' nor '-' |
| `Descriptor.SafeBarename` | inst/scan_dependencies.py:43-48 | the sanitised bare name holds no '-', has the length of the base name's root (the part before its last extension), and is a prefix of the sanitised base name |
| `Descriptor.BarenameStripsExtension` | inst/scan_dependencies.py:43-48 | the sanitised base name is exactly the sanitised bare name followed by the sanitised last extension: only that extension is stripped |
| `Descriptor.ProcessFile` | inst/scan_dependencies.py:32-54 | the descriptor's file name is the normal form of the given name; loads, saves and depends are those of the scans; `loads_depends` is loads followed by depends; the names are the sanitised ones |
| `Descriptor.ProcessFileNormal` | inst/scan_dependencies.py:36-52 | every path a descriptor lists is normalised |
| `Descriptor.LoadThenSaveDescriptor` | inst/scan_dependencies.py:32-54 | the one-load, one-save script has loads `[output/a/x.Rdata]`, saves `[output/b/y.Rdata]` and no depends |
| `Descriptor.PresentName` | inst/scan_dependencies.py:64-66 | the presented name is the normal form of the name's relative path, wrapped in double quotes |
| `Descriptor.PresentAll` | inst/scan_dependencies.py:73-76 | each name of a list is presented, one for one |
| `Descriptor.PresentFileDict` | inst/scan_dependencies.py:69-77 | the bare name is untouched; list lengths are kept; `loads_depends` stays loads followed by depends |
| `Descriptor.PresentFileDictFields` | inst/scan_dependencies.py:71-75 | file name, base name and every load, save and depend path are replaced by their presented forms, element by element |
| `Descriptor.PresentFileDicts` | inst/scan_dependencies.py:80-81 | each descriptor of a list is presented, one for one |
| `Clusters.AppendNew` | inst/scan_dependencies.py:90-91 | the guarded append adds at most one name per name offered; which names it adds is stated by `Clusters.AppendNewIsFirstOccurrences` |
| `Clusters.DirNames` | inst/scan_dependencies.py:88-89 | a listing offers at most one name per entry; which names is stated by `Clusters.DirNamesMembers` |
| `Clusters.Candidates` | inst/scan_dependencies.py:87-89 | no root offers no name, and one root offers the directory names of its listing in listing order; `Clusters.CandidatesMembers` states membership for any roots |
| `Clusters.AppendNewMembers` | inst/scan_dependencies.py:90-91 | a name ends up in the list exactly when it was there or was offered |
| `Clusters.AppendNewDistinct` | inst/scan_dependencies.py:90-91 | the membership test keeps a duplicate-free list duplicate-free |
| `Clusters.AppendNewIsFirstOccurrences` | inst/scan_dependencies.py:87-91 | the list grows by exactly the first occurrences of names it lacked, in the order they were offered |
| `Clusters.DirNamesMembers` | inst/scan_dependencies.py:88-89 | a listing offers a name exactly when one of its entries is a directory of that name |
| `Clusters.CandidatesMembers` | inst/scan_dependencies.py:87-89 | the names offered are exactly the directory entries listed under some root directory |
| `Clusters.ClusterListFacts` | inst/scan_dependencies.py:84-93 | the list the loops build from any root directories is "." followed by the first occurrences of the listed sub-directory names; it has no duplicates and holds exactly "." and those names |
| `Clusters.CollectClusters` | inst/scan_dependencies.py:85-91 | the nested loops over the roots and their entries build exactly the reference list of `Clusters.ClusterListFacts`, so it has that lemma's three properties |
| `Clusters.GetClusters` | inst/scan_dependencies.py:84-93 | the list is "." followed by the first occurrences of the sub-directory names of `paramval` then `vignettes`; it has no duplicates and holds exactly "." and those names |
| `Rules.MakeRules` | inst/scan_dependencies.py:127-137 | one rule per file: the script rules in script order, then the report rules in report order |
| `Rules.BuildRules` | inst/scan_dependencies.py:127-137 | one script rule per R script (dest = saves, src = filename + loads, depends, the script recipe), then one report rule per Rmd file (dest = its PDF, src = filename + loads, the render recipe) |
| `Rules.MakeAll` | inst/scan_dependencies.py:139-141 | every destination of every rule is an aggregate target; `Rules.MakeAllMembers` gives the converse |
| `Rules.MakeAllAppend` | inst/scan_dependencies.py:139-141 | the aggregate target of concatenated rule lists is the concatenation of their aggregate targets |
| `Rules.MakeAllMembers` | inst/scan_dependencies.py:139-141 | a path is an aggregate target exactly when some rule has it as a destination |
| `Rules.MakeAllOfRules` | inst/scan_dependencies.py:127-141 | the aggregate target is every save of every script in order, then every report's PDF |
| `Rules.SaveInMakeAll` | inst/scan_dependencies.py:127-141 | every declared save of every script is an aggregate target |
| `Rules.SharedSaveListedTwice` | inst/scan_dependencies.py:127-141 | two scripts saving the same artifact put it in the aggregate target twice: duplicates are neither detected nor removed |
| `Rules.ClusterFiles` | inst/scan_dependencies.py:110-111 | the script and report descriptors are those of the `*.R` and `*.Rmd` files glob lists for the cluster, one for one and in glob order |

## Left out

- File reading and writing, `os.makedirs`, `os.chmod`, the `dot` subprocess, Jinja2 template loading and rendering, and `yaml.dump`. These are I/O or foreign code. The model stops at the data handed to them.
- `glob.glob`, `os.scandir` with `DirEntry.is_dir`, and reading a file are parameters of the model, so their matching rules, listing order and errors are not modelled.
- Clusters.GetClusters: the model assumes `os.scandir` always returns a listing. A missing root directory raises an exception in the original, and that case is not modelled.
- Descriptor.PresentName: `os.path.relpath` depends on the process's working directory and is left uninterpreted. Only the normalisation and the quoting around it are modelled.
- Descriptor.PresentFileDict: the contract states only the bare name and the list shapes. The field-by-field presentation is stated separately by `Descriptor.PresentFileDictFields`. `copy.deepcopy` has no counterpart, because values are immutable here.
- Descriptor.ProcessFile: the unused `cluster` parameter of `process_file` is dropped.
- The scanners model the three fixed expressions, not a general regular-expression engine. Python strings are sequences of code points, which `char` stands for.
- `argparse`, the `main` loop over clusters, `get_templates`, `add_rdata` (unused) and the `edit_warning` text are not modelled. Neither is validation of duplicate outputs, which the original does not perform.
