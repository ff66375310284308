/** The string logic of the coverage runner: parsing a test id into its
    location, the package-to-directory mapping, picking the Maven module of
    a test file, choosing the coverage report directory, and assembling the
    per-test coverage file. */
module RunCov {
  import opened Common

  /** Where a test method lives: package, class, method. */
  datatype Location = Location(package: string, classes: string, methodName: string)

  /** `[\w.]`: characters of a package name. */
  predicate IsPackageChar(c: char) {
    IsWordChar(c) || c == '.'
  }

  // ----- extract_method_name -----

  /** The test ids `^([\w.]+)\.(\w+)#(\w+)$` accepts, with the location its
      groups give: a non-empty package, then a dot, a non-empty class name,
      `#` and a non-empty method name. */
  ghost predicate IsTestId(s: string, loc: Location) {
    && |loc.package| > 0 && All(loc.package, IsPackageChar)
    && |loc.classes| > 0 && All(loc.classes, IsWordChar)
    && |loc.methodName| > 0 && All(loc.methodName, IsWordChar)
    && s == loc.package + "." + loc.classes + "#" + loc.methodName
  }

  /** `extract_method_name`: split a test id `pkg.Class#method`. The greedy
      package group backtracks to the last dot before `#`, so the class is
      what follows that dot. Anything else is the source's assertion
      failure, which carries no message; the model's error value is the
      rejected id itself. */
  function ExtractMethodName(s: string): (r: Result<Location, string>)
    ensures r.Err? ==> r.error == s
  {
    var h := Span(s, IsPackageChar);
    if h == |s| || s[h] != '#' then Err(s)
    else
      var head, mth := s[..h], s[h + 1..];
      var d := LastIndex(head, '.');
      if d < 1 || d == |head| - 1 || |mth| == 0 || !All(mth, IsWordChar) then Err(s)
      else Ok(Location(head[..d], head[d + 1..], mth))
  }

  /** The parser returns a location exactly when the id has the accepted
      shape with that location. */
  lemma ExtractMethodNameIff(s: string, loc: Location)
    ensures ExtractMethodName(s) == Ok(loc) <==> IsTestId(s, loc)
  {
    if ExtractMethodName(s) == Ok(loc) {
      ExtractMethodNameSound(s);
    }
    if IsTestId(s, loc) {
      ExtractMethodNameComplete(s, loc);
    }
  }

  lemma ExtractMethodNameSound(s: string)
    requires ExtractMethodName(s).Ok?
    ensures IsTestId(s, ExtractMethodName(s).value)
  {
    var h := Span(s, IsPackageChar);
    var head, mth := s[..h], s[h + 1..];
    var d := LastIndex(head, '.');
    var loc := ExtractMethodName(s).value;
    assert loc == Location(head[..d], head[d + 1..], mth);
    assert All(loc.classes, IsWordChar) by {
      forall i | 0 <= i < |loc.classes| ensures IsWordChar(loc.classes[i]) {
        assert loc.classes[i] == head[d + 1 + i];
      }
    }
    assert head == loc.package + "." + loc.classes;
    assert s == head + "#" + mth by {
      assert s == s[..h] + [s[h]] + s[h + 1..];
    }
  }

  lemma ExtractMethodNameComplete(s: string, loc: Location)
    requires IsTestId(s, loc)
    ensures ExtractMethodName(s) == Ok(loc)
  {
    var head := loc.package + "." + loc.classes;
    var h := |head|;
    assert s == head + "#" + loc.methodName;
    assert Span(s, IsPackageChar) == h by {
      SpanStopsAt(s, IsPackageChar, h);
    }
    assert s[..h] == head && s[h] == '#' && s[h + 1..] == loc.methodName;
    assert LastIndex(head, '.') == |loc.package| by {
      LastIndexAfter(loc.package + ".", loc.classes, '.');
    }
    assert head[..|loc.package|] == loc.package && head[|loc.package| + 1..] == loc.classes;
  }

  // ----- package_name2dir -----

  /** Replace every occurrence of character `x` by `y`. */
  function Replace(s: string, x: char, y: char): (r: string)
    ensures |r| == |s|
    ensures forall i | 0 <= i < |s| :: r[i] == if s[i] == x then y else s[i]
  {
    seq(|s|, i requires 0 <= i < |s| => if s[i] == x then y else s[i])
  }

  /** `package_name2dir`: `org.apache.shiro` to `org/apache/shiro`. */
  function PackageToDir(package: string): (r: string)
    ensures |r| == |package| && '.' !in r
  {
    Replace(package, '.', '/')
  }

  /** A package name without slashes is recovered from its directory: the
      mapping loses nothing on real package names. */
  lemma PackageToDirInverse(package: string)
    requires '/' !in package
    ensures Replace(PackageToDir(package), '/', '.') == package
  {
    var r := Replace(PackageToDir(package), '/', '.');
    assert forall i | 0 <= i < |package| :: r[i] == package[i];
  }

  // ----- get_module -----

  /** `w` is a `/(\w+)/` segment of `path` whose opening slash is at `i`. */
  ghost predicate IsSegmentAt(path: string, i: nat, w: string) {
    && |w| > 0 && All(w, IsWordChar)
    && i + |w| + 2 <= |path|
    && path[i] == '/' && path[i + 1..i + 1 + |w|] == w && path[i + 1 + |w|] == '/'
  }

  /** The `/(\w+)/` match whose opening slash is at `i`, if any. */
  function SegmentAt(path: string, i: nat): (r: Option<string>)
    requires i < |path|
    ensures r.Some? ==> IsSegmentAt(path, i, r.value)
  {
    if path[i] != '/' then None
    else
      var k := SpanFrom(path, IsWordChar, i + 1);
      if k > 0 && i + 1 + k < |path| && path[i + 1 + k] == '/' then Some(path[i + 1..i + 1 + k]) else None
  }

  /** At most one segment opens at a position, and `SegmentAt` finds it. */
  lemma SegmentAtComplete(path: string, i: nat, w: string)
    requires IsSegmentAt(path, i, w)
    ensures SegmentAt(path, i) == Some(w)
  {
    forall x | i + 1 <= x < i + 1 + |w| ensures IsWordChar(path[x]) {
      assert path[x] == w[x - i - 1];
    }
    SpanFromStopsAt(path, IsWordChar, i + 1, i + 1 + |w|);
  }

  /** The leftmost segment at or after position `from`: `re.search`. */
  function FindSegment(path: string, from: nat): (r: Option<string>)
    requires from <= |path|
    decreases |path| - from
  {
    if from == |path| then None
    else
      match SegmentAt(path, from)
      case Some(w) => Some(w)
      case None => FindSegment(path, from + 1)
  }

  /** `re.search(r"/(\w+)/", path)` finds the leftmost segment: the result
      opens at some position with no segment opening earlier; and it finds
      nothing only when no position opens a segment. */
  lemma {:induction false} FindSegmentLeftmost(path: string, from: nat)
    requires from <= |path|
    ensures FindSegment(path, from).Some? ==>
              exists i | from <= i < |path| ::
                && IsSegmentAt(path, i, FindSegment(path, from).value)
                && forall j, w | from <= j < i :: !IsSegmentAt(path, j, w)
    ensures FindSegment(path, from).None? ==> forall j, w | from <= j < |path| :: !IsSegmentAt(path, j, w)
    decreases |path| - from
  {
    if from < |path| {
      FindSegmentLeftmost(path, from + 1);
      forall w | IsSegmentAt(path, from, w) ensures SegmentAt(path, from) == Some(w) {
        SegmentAtComplete(path, from, w);
      }
    }
  }

  /** `get_module`: the first `/word/` segment of the test file's path is
      its Maven module when the POM lists it, and `""` otherwise; a path
      without such a segment is the source's assertion failure, which
      carries no message; the model's error value is the path itself. */
  function GetModule(path: string, pomModules: seq<string>): (r: Result<string, string>)
    ensures r.Err? ==> r.error == path
    ensures r.Ok? ==> r.value == "" || r.value in pomModules
  {
    match FindSegment(path, 0)
    case None => Err(path)
    case Some(w) => Ok(if w in pomModules then w else "")
  }

  /** `get_module` in terms of the path alone: it fails exactly when the
      path has no `/word/` segment, and otherwise answers with the leftmost
      segment when the POM lists it and `""` when not. */
  lemma GetModuleSpec(path: string, pomModules: seq<string>)
    ensures GetModule(path, pomModules).Err? <==> forall j, w | 0 <= j < |path| :: !IsSegmentAt(path, j, w)
    ensures GetModule(path, pomModules).Ok? ==>
              exists i, w | 0 <= i < |path| ::
                && IsSegmentAt(path, i, w)
                && (forall j, w' | 0 <= j < i :: !IsSegmentAt(path, j, w'))
                && GetModule(path, pomModules).value == (if w in pomModules then w else "")
  {
    FindSegmentLeftmost(path, 0);
    if FindSegment(path, 0).Some? {
      var w := FindSegment(path, 0).value;
      var i :| 0 <= i < |path| && IsSegmentAt(path, i, w) && forall j, w' | 0 <= j < i :: !IsSegmentAt(path, j, w');
    }
  }

  // ----- search_for_report_path -----

  /** The report file below a sub-project directory. */
  const JacocoFile: string := "target/site/jacoco/jacoco.xml"

  /** `os.path.join(a, b)` for POSIX paths: an absolute `b` replaces `a`,
      otherwise a slash is inserted unless `a` is empty or ends with one. */
  function JoinPath(a: string, b: string): (r: string)
    ensures IsSuffix(b, r)
    ensures |b| > 0 && b[0] == '/' ==> r == b
    ensures !(|b| > 0 && b[0] == '/') ==> IsPrefix(a, r)
    ensures !(|b| > 0 && b[0] == '/') ==> r[|a|..] == b || r[|a|..] == "/" + b
    ensures !(|b| > 0 && b[0] == '/') ==> (r[|a|..] == "/" + b <==> |a| > 0 && a[|a| - 1] != '/')
  {
    if |b| > 0 && b[0] == '/' then b
    else if |a| == 0 || a[|a| - 1] == '/' then a + b
    else a + "/" + b
  }

  /** A sub-project directory qualifies when it is a string prefix of the
      test file's path and holds a report covering the test's package. */
  predicate IsCandidate(dir: string, fullPath: string, valid: string -> bool) {
    IsPrefix(dir, fullPath) && valid(dir)
  }

  /** The selection loop of `search_for_report_path`: the longest
      qualifying directory, `""` when none qualifies with a non-empty name.
      The comparison is strict, so among equally long qualifying entries
      the earliest stays. */
  method SelectReportDir(subProjects: seq<string>, fullPath: string, valid: string -> bool) returns (reportDir: string)
    ensures reportDir == "" || (reportDir in subProjects && IsCandidate(reportDir, fullPath, valid))
    ensures forall i | 0 <= i < |subProjects| && IsCandidate(subProjects[i], fullPath, valid) ::
              |subProjects[i]| <= |reportDir|
    ensures reportDir != "" ==>
              exists i | 0 <= i < |subProjects| ::
                && subProjects[i] == reportDir
                && forall j | 0 <= j < i && IsCandidate(subProjects[j], fullPath, valid) :: |subProjects[j]| < |reportDir|
  {
    reportDir := "";
    var k := 0;
    while k < |subProjects|
      invariant k <= |subProjects|
      invariant reportDir == "" || (reportDir in subProjects && IsCandidate(reportDir, fullPath, valid))
      invariant forall i | 0 <= i < k && IsCandidate(subProjects[i], fullPath, valid) :: |subProjects[i]| <= |reportDir|
      invariant reportDir != "" ==>
                  exists i | 0 <= i < k ::
                    && subProjects[i] == reportDir
                    && forall j | 0 <= j < i && IsCandidate(subProjects[j], fullPath, valid) :: |subProjects[j]| < |reportDir|
    {
      var dir := subProjects[k];
      if IsPrefix(dir, fullPath) && valid(dir) && |dir| > |reportDir| {
        reportDir := dir;
      }
      k := k + 1;
    }
  }

  /** Qualifying directories are prefixes of one path, so two of equal
      length are equal: the chosen directory does not depend on the order
      of the sub-project list. */
  lemma ReportDirUnique(fullPath: string, d1: string, d2: string)
    requires IsPrefix(d1, fullPath) && IsPrefix(d2, fullPath) && |d1| == |d2|
    ensures d1 == d2
  {
  }

  /** `search_for_report_path`: the report file of the chosen directory, or
      `""` when no directory qualifies. */
  method SearchForReportPath(subProjects: seq<string>, fullPath: string, valid: string -> bool) returns (path: string)
    ensures path == "" || IsSuffix(JacocoFile, path)
    ensures path == "" <==> forall i | 0 <= i < |subProjects| && IsCandidate(subProjects[i], fullPath, valid) :: subProjects[i] == ""
    ensures path != "" ==>
              exists i | 0 <= i < |subProjects| ::
                && IsCandidate(subProjects[i], fullPath, valid)
                && path == JoinPath(subProjects[i], JacocoFile)
                && forall j | 0 <= j < |subProjects| && IsCandidate(subProjects[j], fullPath, valid) :: |subProjects[j]| <= |subProjects[i]|
  {
    var reportDir := SelectReportDir(subProjects, fullPath, valid);
    if |reportDir| != 0 {
      path := JoinPath(reportDir, JacocoFile);
      var i :| 0 <= i < |subProjects| && subProjects[i] == reportDir;
    } else {
      path := "";
    }
  }

  // ----- persist_cov_data -----

  /** The text `persist_cov_data` writes: `[`, the records' JSON separated
      by `,` and a newline, then a newline and `]`. */
  method AssembleJson(records: seq<string>) returns (json: string)
    ensures json == "[" + Join(records, ",\n") + "\n]"
  {
    json := "[";
    var ind := 0;
    while ind < |records|
      invariant ind <= |records|
      invariant json == "[" + Join(records[..ind], ",\n")
    {
      if ind > 0 {
        json := json + ",\n";
      }
      json := json + records[ind];
      JoinSnoc(records[..ind], records[ind], ",\n");
      assert records[..ind + 1] == records[..ind] + [records[ind]];
      ind := ind + 1;
    }
    assert records[..ind] == records;
    json := json + "\n]";
  }
}
