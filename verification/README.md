# maven_utcov core, modelled in Dafny

maven_utcov maps every unit test of a Maven project to the project methods
it exercises, and runs each test under JaCoCo to collect its coverage. This
project models the string and graph logic at its core:

- **Call graph** (`extract_callgraph.py`). A log line `M:<caller> (M)<callee>`
  is parsed into a call record (`method_id.dfy`, `records.dfy`). The records
  of the log become a map from each caller to the distinct methods it calls
  (`call_graph.dfy`). The callers that are unit tests are selected
  (`unit_tests.dfy`). The project prefix is the longest common prefix of the
  unit tests' class names (`common_prefix.dfy`). A depth-first walk from each
  unit test records every project method it reaches, once, with a call depth
  (`traversal.dfy`, `traversal_props.dfy`). `call_chains.dfy` strings these
  steps together.
- **Coverage runner** (`run_cov.py`, in `run_cov.dfy`):
  - the test-id parser `pkg.Class#method`
  - the package-to-directory mapping
  - the Maven-module picker
  - the choice of the JaCoCo report directory
  - the text of the per-test coverage file
- **Test-id collection** (`get_test_methods.py` and `scripts/get_test_methods.py`,
  in `test_methods.dfy`):
  - removal of the parameter suffix of parameterised test names
  - per-directory de-duplication
  - concatenation over report directories
  - the final sort

`common.dfy` holds the shared vocabulary:
- a result type for the source's `assert` failures;
- `startswith`/`endswith`;
- the ASCII regex classes;
- the maximal-run scanner that every greedy regex group reduces to;
- `str.split`/`str.join`;
- de-duplication in first-occurrence order.

Modelling decisions:

- **Sets.** Python sets have no defined order. Wherever the source turns a set
  into a list (callee sets, `list(set(...))`), the model uses first-occurrence
  order. That is one admissible enumeration. The traversal properties hold for
  any callee order. The sorted output of the collector is shown independent of
  order (`SortedUnique`).
- **The global prefix.** The module-level `package_project_prefix` that
  `get_call_chains` assigns is an explicit parameter of the traversal, and
  `GetCallChains` returns it.
- **Caches.** The cache branches read or write JSON and pickle files. Only the
  compute branches are modelled.
- **Record layout and empty parameter lists.** Two details of the log
  format follow directly from the code:
  - `extract_method_record` reads the call kind at `record[2 + length + 2]`
    and parses the callee from `record[2 + length + 4:]`
    (extract_callgraph.py:66-67). So the gap between caller and callee is
    four characters, with the call kind third (` (M)`).
  - A method without parameters keeps `"".split(",") == [""]`
    (extract_callgraph.py:58).

## Model

| member | source | states |
|---|---|---|
| MethodId.ExtractMethod | extract_callgraph.py:53-59 | a successful parse consumes a non-empty prefix of the text; a failure carries the rejected text, which the assertion message names |
| MethodId.ExtractMethodSound | extract_callgraph.py:47-59 | the parsed method is well formed (names over the pattern's classes) and its `__str__` is exactly the consumed prefix |
| MethodId.ExtractMethodComplete | extract_callgraph.py:47-59 | any text that starts with the string of a well-formed method parses to exactly that method and length, whatever follows (`match` is not anchored at the end) |
| MethodId.ParseToString | extract_callgraph.py:22-23 | round trip: parsing `str(m)` followed by anything gives back `m` and the length of `str(m)` |
| MethodId.ToStringInjective | extract_callgraph.py:16-29 | for parsed methods, equal strings iff equal methods, so the string-based `__hash__` agrees with the field-wise `__eq__` |
| Records.ExtractMethodRecord | extract_callgraph.py:62-68 | a line is rejected as no record exactly when it lacks the `M:` marker; an unparsable caller fails with the method mismatch on the text after `M:`; a line too short for the call kind fails with `MissingCallType` (the source's `IndexError`; the model attaches the line); an unparsable callee fails with the mismatch on the clamped callee slice |
| Records.RecordLineIff | extract_callgraph.py:62-68 | the parser returns a record exactly when the line is `M:`, the caller's string, a four-character gap with the call kind third, then the callee's string |
| Records.ParseFormattedRecord | extract_callgraph.py:62-68 | round trip: a record written in the log format, with any trailing text, parses back to that record |
| CallGraph.AddEdge | extract_callgraph.py:106-109 | adding an edge keeps the graph well formed, adds the caller as a key, and adds exactly the one callee to its set |
| CallGraph.Step | extract_callgraph.py:102-109 | one line of the loop: a non-record changes nothing, a malformed record aborts with its error, a record adds its edge |
| CallGraph.BuildFrom | extract_callgraph.py:93-112 | the build fails iff some line is malformed, then with the first malformed line's error; on success the keys are exactly the record callers and each callee list is exactly that caller's recorded callees, without repeats |
| CallGraph.Build | extract_callgraph.py:93-112 | on log text: fails iff a line is a malformed record; otherwise the graph is well formed |
| CallGraph.BuildEdges | extract_callgraph.py:93-112 | on log text: `m` calls `c` in the graph iff some line has the record layout from `m` to `c` |
| CallGraph.IgnoresNonRecordLines | extract_callgraph.py:103-105 | a line that is not a record, anywhere in the log, does not change the result |
| UnitTests.SelectUnitTests | extract_callgraph.py:83-86 | exactly the callers whose class ends with `Test` and whose name starts with `test` are kept, once each when the callers are distinct |
| UnitTests.SelectConcat | extract_callgraph.py:83-86 | the selection keeps the callers' order |
| CommonPrefix.LongestCommonPrefix | extract_callgraph.py:178-199 | an empty list gives `""`; otherwise the result is a common prefix of all strings and no common prefix is longer |
| CommonPrefix.ShrinkToNext | extract_callgraph.py:194-197 | shortening the longest common prefix of the first `k` strings until it starts string `k` gives that of the first `k + 1` |
| CommonPrefix.LongestCommonPrefixUnique | extract_callgraph.py:178-199 | the longest common prefix depends only on the set of strings, not on their order or repetitions |
| CommonPrefix.ExtractProjectPrefix | extract_callgraph.py:202-206 | the project prefix is the longest common prefix of the unit tests' class names and starts each of them |
| Traversal.Traverse | extract_callgraph.py:115-136 | the walk only appends entries, so the recorded methods only grow |
| Traversal.VisitCallees | extract_callgraph.py:121-136 | the callee loop only appends entries, so the recorded methods only grow |
| TraversalProps.TraverseDistinct | extract_callgraph.py:123-131 | the walk never records a method twice |
| TraversalProps.VisitDistinct | extract_callgraph.py:121-136 | the callee loop never records a method twice |
| TraversalProps.TraverseInProject | extract_callgraph.py:132-134 | every method the walk records is in the project and recorded at the walk's depth or deeper |
| TraversalProps.VisitInProject | extract_callgraph.py:121-136 | the same, for the callee loop |
| TraversalProps.TraverseJustified | extract_callgraph.py:134-136 | each new entry is a callee of the root at the current depth, or a callee of an earlier new entry one level below it |
| TraversalProps.VisitJustified | extract_callgraph.py:121-136 | the same, for the callee loop |
| TraversalProps.JustifiedCombine | extract_callgraph.py:134-136 | recording a callee and walking below it keeps every new entry justified |
| TraversalProps.TraverseClosed | extract_callgraph.py:115-136 | after the walk, every project callee of the root and of every newly recorded method is recorded |
| TraversalProps.VisitClosed | extract_callgraph.py:121-136 | after the loop, every project callee from the current position on is recorded, and new entries are closed |
| TraversalProps.WalkTo | extract_callgraph.py:134-136 | every recorded entry is reached from the test by a project call walk with as many calls as its depth |
| TraversalProps.WalkEndsSeen | extract_callgraph.py:115-136 | under closure, every project walk from the test ends at a recorded method |
| TraversalProps.CallTree | extract_callgraph.py:139-145 | the list `construct_ut_call_tree` stores for a test (the walk from depth one over an empty list) is a call tree: each method once, a method iff it is reachable from the test through project methods, each at a depth some such walk has |
| TraversalProps.CallTreeSpec | extract_callgraph.py:139-145 | the walk from a test at depth one, starting from nothing recorded, records each method once, records a method iff it is reachable from the test through project methods, and each at a depth some such walk has |
| CallChains.BuildCallEntries | extract_callgraph.py:168-170 | every unit test, and nothing else, is a key, and each maps to exactly the list `CallTree` builds for it (order and levels included), which is a call tree |
| CallChains.GetCallChains | extract_callgraph.py:209-214 | fails iff the graph build fails, with its error; on success the prefix is the longest common prefix of the unit tests' classes (`""` without unit tests), the keys are exactly the unit tests of the graph, the prefix starts each test's class, and each test maps to exactly the list `CallTree` builds for it under that prefix, which is a call tree |
| RunCov.ExtractMethodName | run_cov.py:241-245 | a rejected test id fails (the assertion has no message; the model attaches the id) |
| RunCov.ExtractMethodNameIff | run_cov.py:241-245 | the parser returns a location iff the id is `package.Class#method` with non-empty word parts (dots only in the package) and that location |
| RunCov.PackageToDir | run_cov.py:252-253 | the directory has the package name's length and no dot |
| RunCov.PackageToDirInverse | run_cov.py:252-253 | a package name without slashes is recovered from its directory |
| RunCov.SegmentAt | run_cov.py:187-188 | a segment found at a position has the `/word/` shape there |
| RunCov.SegmentAtComplete | run_cov.py:187-188 | a `/word/` segment opening at a position is the one found there |
| RunCov.FindSegmentLeftmost | run_cov.py:187-189 | the search returns the leftmost `/word/` segment, and nothing only when there is none |
| RunCov.GetModule | run_cov.py:183-193 | the answer is `""` or one of the POM modules; a failure carries the path |
| RunCov.GetModuleSpec | run_cov.py:187-193 | fails iff the path has no `/word/` segment; otherwise answers the leftmost segment when the POM lists it, `""` when not |
| RunCov.JoinPath | run_cov.py:317 | `os.path.join`: an absolute part replaces the directory; otherwise the directory is followed by the part, with one `/` between exactly when the directory is non-empty and does not end in `/` |
| RunCov.SelectReportDir | run_cov.py:307-314 | the chosen directory is `""` or a qualifying entry; no qualifying entry is longer; it is the first of its length among qualifying entries |
| RunCov.ReportDirUnique | run_cov.py:307-314 | two qualifying directories of equal length are equal, so the choice does not depend on the list's order |
| RunCov.SearchForReportPath | run_cov.py:296-319 | `""` iff no non-empty directory qualifies; otherwise the JaCoCo file joined to a longest qualifying directory |
| RunCov.AssembleJson | run_cov.py:344-349 | the file text is `[`, the records joined by `,` and a newline, then a newline and `]` |
| TestMethods.StripParamSuffix | get_test_methods.py:17-22 | the stripped name is a prefix of the reported name |
| TestMethods.StripRemovesSuffix | get_test_methods.py:17-22 | when the name ends in `(params)[digits]`, exactly that suffix is removed |
| TestMethods.StripSound | get_test_methods.py:17-22 | the name is either kept or loses a `(params)[digits]` suffix |
| TestMethods.StripParameterisedName | get_test_methods.py:17-22 | round trip: a name with a parameter suffix appended strips back to the name |
| TestMethods.StripPlainName | get_test_methods.py:17-22 | a name without `(` is kept |
| TestMethods.FormatId | get_test_methods.py:36-37 | the id starts with the class (or `None`) and `#` |
| TestMethods.FormatIdPlain | get_test_methods.py:36-37 | a name without parameters gives `class#name` |
| TestMethods.FormatIdInjective | get_test_methods.py:26-37 | for class texts without `#`, two test cases share an id (one entry of the set) iff their class texts and stripped names agree |
| TestMethods.FormatIdParameterised | get_test_methods.py:33-37 | all runs of a parameterised test share the id of the plain test |
| TestMethods.CollectReportedMethods | get_test_methods.py:25-39 | the directory's ids are distinct, and exactly the ids of its test cases |
| TestMethods.UniqueList | get_test_methods.py:54-55 | distinct elements, and exactly the input's elements |
| TestMethods.GatherIds | get_test_methods.py:77-88 | the gathered ids are exactly the ids of the test cases of all directories |
| TestMethods.GatherSingle | get_test_methods.py:86-87 | one directory contributes exactly its de-duplicated ids |
| TestMethods.GatherConcat | get_test_methods.py:85-88 | gathering consecutive groups of directories concatenates their lists, with nothing merged or reordered |
| TestMethods.DirectoryBlock | get_test_methods.py:85-88 | each directory's ids form one block, after those of earlier directories and before those of later ones |
| TestMethods.GatherCount | get_test_methods.py:85-88 | each id occurs once per directory that reports it |
| TestMethods.GatherKeepsCrossDirectoryDuplicates | get_test_methods.py:85-88 | an id reported in any two different directories occurs at least twice, so the list is not de-duplicated |
| TestMethods.Insert | get_test_methods.py:93 | inserting into a sorted list keeps it sorted and adds exactly the one element |
| TestMethods.SortIds | get_test_methods.py:93 | the sorted ids are in code-point order and a permutation of the input |
| TestMethods.SortedUnique | get_test_methods.py:91-94 | only one sorted permutation exists, so the saved list is independent of set enumeration order |
| TestMethods.CollectSortedIds | get_test_methods.py:91-94 | the collector saves the gathered ids sorted, as a permutation |
| TestMethods.CollectIdsUnsorted | scripts/get_test_methods.py:75-85 | the helper script saves the ids of all directories, each id once per directory that reports it, each directory's ids as one block in directory order |

The helper script `scripts/get_test_methods.py` repeats three definitions of
`get_test_methods.py`, so the same members model them:

- lines 15-20 repeat `test_method_name_strip` (`StripParamSuffix`);
- lines 23-37 repeat `collect_reported_methods` (`CollectReportedMethods`);
- lines 52-53 repeat `unique_list` (`UniqueList`).

## Left out

- File, JSON and pickle caches. This covers the unit-test list cache, the
  call-entry pickle, the JSON dump of the call entries and `persist`. These
  are I/O; only the compute branches are modelled.
- Reading the log file. `Build` takes the log as a list of lines.
- Reading the report directory. `collect_reported_methods` lists the
  directory, filters `.xml`, and parses each report with ElementTree.
  `CollectReportedMethods` takes the resulting `testcase` elements as a
  sequence.
- Maven, `java` and shell invocations (`run_ut`, `prepare_maven`, `run_cmd`,
  `gen_callgraph.py`, `get_submodules.py`). These are external processes.
- XML parsing of JaCoCo reports and POM files (`extract_cov_report`,
  `collect_modules`). The POM module list is a parameter of `GetModule`.
- `check_valid_report_dir`. It opens a JaCoCo report, so it is the predicate
  parameter `valid` of `SelectReportDir`.
- `calculate_coverage`. It is floating-point division.
- Filesystem walks (`get_full_path`, `get_all_report_dirs`). The list of
  report directories and the test file's path are inputs.
- `CovRecord.toJSON`. It is `json.dumps` with indentation. `AssembleJson`
  takes the record texts as given.
- Logging, command-line parsing and debugger hooks.
- Unicode. The regex classes `\w`, `\s` and `\d` are modelled on their ASCII
  members only (`\s` includes the separators 0x1C to 0x1F, as Python's
  does); Python's classes also accept other Unicode letters, spaces and
  digits.
- A trailing newline. Python's `$` also matches before a final newline. The
  model's `StripParamSuffix` only removes a suffix that ends the string.
- Hashing. `Method.__hash__` hashes the string. The model uses structural
  equality, which `ToStringInjective` shows agrees with it on parsed methods.
- `Method.__repr__`. It is only used for display.
- Traverse: the source recurses once per call level
  (extract_callgraph.py:136), so a walk deeper than CPython's default
  recursion limit (1000) raises `RecursionError`. `Traverse` and
  `VisitCallees` have no depth limit and never fail.
- CollectReportedMethods: the source asserts that every `testcase` has a
  `name` (get_test_methods.py:35; scripts/get_test_methods.py:33), so a
  report entry without one aborts the run. `TestCase.name` is a plain
  string, so the model has no such entry and no such failure.
