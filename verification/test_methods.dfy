/** Test-id collection from the Surefire reports: every reported test case
    becomes `Class#method` with the parameter suffix of a parameterised run
    removed, de-duplicated per report directory, concatenated over the
    directories, and sorted before it is saved. The helper script in
    `scripts/` shares these definitions but saves the ids unsorted. */
module TestMethods {
  import opened Common

  // ----- test_method_name_strip -----

  /** `[\w\s,]`: characters of a parameter list in a reported name. */
  predicate IsParamChar(c: char) {
    IsWordChar(c) || IsSpace(c) || c == ','
  }

  /** `t[j..]` is a parameter suffix `(x)[d]`: a non-empty parameter text
      and a non-empty run of digits. */
  ghost predicate IsParamSuffixAt(t: string, j: nat, x: string, d: string) {
    && j <= |t|
    && |x| > 0 && All(x, IsParamChar)
    && |d| > 0 && All(d, IsDigit)
    && t[j..] == "(" + x + ")[" + d + "]"
  }

  /** Does a match of `\([\w\s,]+\)\[\d+\]$` start at `j`? */
  predicate ParamSuffixAt(t: string, j: nat)
    requires j < |t|
  {
    && t[j] == '('
    && var k := SpanFrom(t, IsParamChar, j + 1);
       var e := j + 1 + k;
       && k > 0 && e + 1 < |t| && t[e] == ')' && t[e + 1] == '['
       && var n := SpanFrom(t, IsDigit, e + 2);
          && n > 0 && e + 2 + n < |t| && t[e + 2 + n] == ']' && e + 3 + n == |t|
  }

  /** `test_method_name_strip`: `re.sub` of the end-anchored parameter
      pattern. A match must start at the last `(` of the name (the
      parameter text cannot hold one), so there is at most one and it is
      removed. */
  function StripParamSuffix(t: string): (r: string)
    ensures IsPrefix(r, t)
  {
    var j := LastIndex(t, '(');
    if j >= 0 && ParamSuffixAt(t, j) then t[..j] else t
  }

  /** Completeness: any parameter suffix is exactly what is removed. */
  lemma StripRemovesSuffix(t: string, j: nat, x: string, d: string)
    requires IsParamSuffixAt(t, j, x, d)
    ensures StripParamSuffix(t) == t[..j]
  {
    assert LastIndex(t, '(') == j by {
      SuffixLastParen(t, j, x, d);
    }
    assert ParamSuffixAt(t, j) by {
      SuffixScans(t, j, x, d);
    }
  }

  /** The `(` opening a parameter suffix is the last one of the name. */
  lemma SuffixLastParen(t: string, j: nat, x: string, d: string)
    requires IsParamSuffixAt(t, j, x, d)
    ensures LastIndex(t, '(') == j
  {
    var tail := x + ")[" + d + "]";
    assert t == t[..j] + "(" + tail by {
      assert t == t[..j] + t[j..];
    }
    assert '(' !in tail by {
      assert forall i | 0 <= i < |x| :: tail[i] == x[i] && IsParamChar(x[i]);
      assert forall i | 0 <= i < |d| :: tail[|x| + 2 + i] == d[i] && IsDigit(d[i]);
    }
    LastIndexAfter(t[..j] + "(", tail, '(');
  }

  /** The scans of `ParamSuffixAt` stop exactly around the parameter text
      and the digits of a parameter suffix. */
  lemma SuffixScans(t: string, j: nat, x: string, d: string)
    requires IsParamSuffixAt(t, j, x, d)
    ensures ParamSuffixAt(t, j)
  {
    var e := j + 1 + |x|;
    SuffixChars(t, j, x, d);
    SpanFromStopsAt(t, IsParamChar, j + 1, e);
    SpanFromStopsAt(t, IsDigit, e + 2, e + 2 + |d|);
    ScansAccept(t, j, |x|, |d|);
  }

  /** Where the characters of a parameter suffix sit in the name. */
  lemma SuffixChars(t: string, j: nat, x: string, d: string)
    requires IsParamSuffixAt(t, j, x, d)
    ensures var e := j + 1 + |x|;
            && |t| == e + 3 + |d| && t[j] == '('
            && (forall i | j + 1 <= i < e :: IsParamChar(t[i]))
            && t[e] == ')' && !IsParamChar(t[e]) && t[e + 1] == '['
            && (forall i | e + 2 <= i < e + 2 + |d| :: IsDigit(t[i]))
            && t[e + 2 + |d|] == ']' && !IsDigit(t[e + 2 + |d|])
  {
    var e := j + 1 + |x|;
    var u := t[j..];
    assert u[0] == '(' && u[1 + |x|] == ')' && u[2 + |x|] == '[' && u[3 + |x| + |d|] == ']';
    forall i | j + 1 <= i < e ensures IsParamChar(t[i]) {
      assert t[i] == u[i - j] == x[i - j - 1];
    }
    forall i | e + 2 <= i < e + 2 + |d| ensures IsDigit(t[i]) {
      assert t[i] == u[i - j] == d[i - e - 2];
    }
  }

  /** The checks of `ParamSuffixAt` once its two scans are known. */
  lemma ScansAccept(t: string, j: nat, k: nat, n: nat)
    requires j < |t| && t[j] == '('
    requires SpanFrom(t, IsParamChar, j + 1) == k && k > 0
    requires j + k + 2 < |t| && t[j + 1 + k] == ')' && t[j + k + 2] == '['
    requires SpanFrom(t, IsDigit, j + k + 3) == n && n > 0
    requires j + k + 3 + n < |t| && t[j + k + 3 + n] == ']' && j + k + 4 + n == |t|
    ensures ParamSuffixAt(t, j)
  {
  }

  /** Soundness: whatever is removed is a parameter suffix. */
  lemma StripSound(t: string)
    ensures || StripParamSuffix(t) == t
            || exists j: nat, x, d :: IsParamSuffixAt(t, j, x, d) && StripParamSuffix(t) == t[..j]
  {
    var j := LastIndex(t, '(');
    if j >= 0 && ParamSuffixAt(t, j) {
      var k := SpanFrom(t, IsParamChar, j + 1);
      var e := j + 1 + k;
      var n := SpanFrom(t, IsDigit, e + 2);
      var x, d := t[j + 1..e], t[e + 2..e + 2 + n];
      assert All(x, IsParamChar) by {
        forall i | 0 <= i < |x| ensures IsParamChar(x[i]) {
          assert x[i] == t[j + 1 + i];
        }
      }
      assert All(d, IsDigit) by {
        forall i | 0 <= i < |d| ensures IsDigit(d[i]) {
          assert d[i] == t[e + 2 + i];
        }
      }
      assert t[j..] == "(" + x + ")[" + d + "]";
      assert IsParamSuffixAt(t, j, x, d);
    }
  }

  /** Round trip: the reported name of a parameterised run, stripped, is
      the plain method name. */
  lemma StripParameterisedName(name: string, x: string, d: string)
    requires |x| > 0 && All(x, IsParamChar) && |d| > 0 && All(d, IsDigit)
    ensures StripParamSuffix(name + "(" + x + ")[" + d + "]") == name
  {
    var t := name + "(" + x + ")[" + d + "]";
    assert t[|name|..] == "(" + x + ")[" + d + "]";
    StripRemovesSuffix(t, |name|, x, d);
    assert t[..|name|] == name;
  }

  /** A name without `(` is kept as it is. */
  lemma StripPlainName(name: string)
    requires '(' !in name
    ensures StripParamSuffix(name) == name
  {
  }

  // ----- collect_reported_methods -----

  /** A `testcase` element of a report: its `classname` attribute (possibly
      missing) and its `name`. */
  datatype TestCase = TestCase(className: Option<string>, name: string)

  /** Python's `f"{x}"` for an optional string: a missing value prints as
      `None`. */
  function ClassText(c: Option<string>): string {
    match c
    case None => "None"
    case Some(s) => s
  }

  /** The id of a test case: `Class#method`, parameters stripped. */
  function FormatId(tc: TestCase): (r: string)
    ensures IsPrefix(ClassText(tc.className) + "#", r)
    ensures |r| <= |ClassText(tc.className)| + 1 + |tc.name|
  {
    ClassText(tc.className) + "#" + StripParamSuffix(tc.name)
  }

  /** All runs of a parameterised test get the id of the plain test. */
  lemma FormatIdParameterised(c: string, name: string, x: string, d: string)
    requires |x| > 0 && All(x, IsParamChar) && |d| > 0 && All(d, IsDigit)
    ensures FormatId(TestCase(Some(c), name + "(" + x + ")[" + d + "]")) == c + "#" + name
  {
    StripParameterisedName(name, x, d);
  }

  /** A name without parameters keeps its own id. */
  lemma FormatIdPlain(c: Option<string>, name: string)
    requires '(' !in name
    ensures FormatId(TestCase(c, name)) == ClassText(c) + "#" + name
  {
    StripPlainName(name);
  }

  /** When class texts hold no `#`, the id determines both halves: two test
      cases share an id (and so one entry of the directory's set) exactly
      when their class texts agree and their names agree once parameters
      are stripped. */
  lemma FormatIdInjective(t1: TestCase, t2: TestCase)
    requires '#' !in ClassText(t1.className) && '#' !in ClassText(t2.className)
    ensures FormatId(t1) == FormatId(t2) <==>
              ClassText(t1.className) == ClassText(t2.className) && StripParamSuffix(t1.name) == StripParamSuffix(t2.name)
  {
    if FormatId(t1) == FormatId(t2) {
      SplitAtHash(ClassText(t1.className), StripParamSuffix(t1.name), ClassText(t2.className), StripParamSuffix(t2.name));
    }
  }

  /** `c + "#" + n` splits uniquely at its first `#` when `c` has none. */
  lemma SplitAtHash(c1: string, n1: string, c2: string, n2: string)
    requires '#' !in c1 && '#' !in c2
    requires c1 + "#" + n1 == c2 + "#" + n2
    ensures c1 == c2 && n1 == n2
  {
    var w := c1 + "#" + n1;
    assert w[|c1|] == '#' && w[|c2|] == '#';
    assert c1 == w[..|c1|] == c2;
    assert n1 == w[|c1| + 1..] == n2;
  }

  /** The ids of the test cases, one per case, in report order. */
  function IdsOf(cases: seq<TestCase>): (r: seq<string>)
    ensures |r| == |cases|
    ensures forall i | 0 <= i < |cases| :: r[i] == FormatId(cases[i])
  {
    seq(|cases|, i requires 0 <= i < |cases| => FormatId(cases[i]))
  }

  /** `collect_reported_methods` over the test cases of the reports of one
      directory: the set of their ids, listed once each. */
  function CollectReportedMethods(cases: seq<TestCase>): (r: seq<string>)
    ensures NoDuplicates(r)
    ensures forall s :: s in r <==> s in IdsOf(cases)
  {
    Dedup(IdsOf(cases))
  }

  /** `unique_list`: the distinct elements, once each. */
  function UniqueList<T(==)>(xs: seq<T>): (r: seq<T>)
    ensures NoDuplicates(r)
    ensures forall i | 0 <= i < |xs| :: xs[i] in r
    ensures forall i | 0 <= i < |r| :: r[i] in xs
  {
    Dedup(xs)
  }

  // ----- get_test_methods -----

  /** The de-duplicated ids of each directory, in directory order. */
  function PerDirectory(dirs: seq<seq<TestCase>>): (r: seq<seq<string>>)
    ensures |r| == |dirs|
    ensures forall k | 0 <= k < |dirs| :: r[k] == CollectReportedMethods(dirs[k])
  {
    MapSeq(CollectReportedMethods, dirs)
  }

  /** `get_test_methods`: the ids of every report directory, extended one
      directory after another. Each directory's ids are distinct, but an id
      reported in two directories appears twice. */
  function GatherIds(dirs: seq<seq<TestCase>>): (r: seq<string>)
    ensures forall s :: s in r <==> exists k | 0 <= k < |dirs| :: s in IdsOf(dirs[k])
  {
    var per := PerDirectory(dirs);
    assert forall s :: s in Flatten(per) <==> exists k | 0 <= k < |dirs| :: s in IdsOf(dirs[k]) by {
      forall s ensures s in Flatten(per) <==> exists k | 0 <= k < |dirs| :: s in IdsOf(dirs[k]) {
        FlattenMember(per, s);
      }
    }
    Flatten(per)
  }

  /** The gathering step as an equation: the ids of all directories but the
      last, then those of the last. */
  lemma GatherLast(dirs: seq<seq<TestCase>>)
    requires |dirs| > 0
    ensures GatherIds(dirs) == GatherIds(dirs[..|dirs| - 1]) + CollectReportedMethods(dirs[|dirs| - 1])
  {
    assert PerDirectory(dirs)[..|dirs| - 1] == PerDirectory(dirs[..|dirs| - 1]);
  }

  /** A single directory contributes its de-duplicated ids. */
  lemma GatherSingle(d: seq<TestCase>)
    ensures GatherIds([d]) == CollectReportedMethods(d)
  {
    GatherLast([d]);
    assert [d][..0] == [];
  }

  /** `extend` over consecutive groups of directories concatenates their
      lists: nothing is merged or reordered across directories. */
  lemma GatherConcat(a: seq<seq<TestCase>>, b: seq<seq<TestCase>>)
    ensures GatherIds(a + b) == GatherIds(a) + GatherIds(b)
  {
    MapSeqConcat(CollectReportedMethods, a, b);
    FlattenConcat(PerDirectory(a), PerDirectory(b));
  }

  /** Each directory's ids sit in the gathered list as one block, after the
      ids of the directories before it and before those after it. */
  lemma DirectoryBlock(dirs: seq<seq<TestCase>>, k: nat)
    requires k < |dirs|
    ensures GatherIds(dirs) == GatherIds(dirs[..k]) + CollectReportedMethods(dirs[k]) + GatherIds(dirs[k + 1..])
  {
    MapSeqSlices(CollectReportedMethods, dirs, k);
    FlattenAround(PerDirectory(dirs), k);
  }

  /** The directories whose reports carry the id `s`, by position. */
  function Reporting(dirs: seq<seq<TestCase>>, s: string): set<nat> {
    set k: nat | k < |dirs| && s in IdsOf(dirs[k])
  }

  /** Multiplicities: an id occurs in the gathered list once for every
      directory that reports it, and not otherwise. */
  lemma GatherCount(dirs: seq<seq<TestCase>>, s: string)
    ensures multiset(GatherIds(dirs))[s] == |Reporting(dirs, s)|
  {
    var per := PerDirectory(dirs);
    FlattenCount(per, s);
    assert Holding(per, s) == Reporting(dirs, s);
  }

  /** A set holding two different elements has at least two. */
  lemma TwoMembers(xs: set<nat>, i: nat, j: nat)
    requires i in xs && j in xs && i != j
    ensures |xs| >= 2
  {
    var rest := xs - {i};
    assert j in rest;
    assert xs == rest + {i};
  }

  /** An id reported in two different directories is kept twice: the
      gathered list is not de-duplicated across directories. */
  lemma GatherKeepsCrossDirectoryDuplicates(dirs: seq<seq<TestCase>>, i: nat, j: nat, s: string)
    requires i < j < |dirs|
    requires s in IdsOf(dirs[i]) && s in IdsOf(dirs[j])
    ensures multiset(GatherIds(dirs))[s] >= 2
    ensures !NoDuplicates(GatherIds(dirs))
  {
    GatherCount(dirs, s);
    TwoMembers(Reporting(dirs, s), i, j);
    if NoDuplicates(GatherIds(dirs)) {
      NoDuplicatesCount(GatherIds(dirs), s);
    }
  }

  // ----- main: sorting -----

  /** Python's `<=` on `str`: lexicographic by code point, a proper prefix
      first. */
  predicate LexLe(a: string, b: string) {
    if |a| == 0 then true
    else if |b| == 0 then false
    else a[0] < b[0] || (a[0] == b[0] && LexLe(a[1..], b[1..]))
  }

  lemma {:induction false} LexLeTotal(a: string, b: string)
    ensures LexLe(a, b) || LexLe(b, a)
  {
    if |a| > 0 && |b| > 0 && a[0] == b[0] {
      LexLeTotal(a[1..], b[1..]);
    }
  }

  lemma {:induction false} LexLeAntisymmetric(a: string, b: string)
    requires LexLe(a, b) && LexLe(b, a)
    ensures a == b
  {
    if |a| > 0 && |b| > 0 {
      LexLeAntisymmetric(a[1..], b[1..]);
      assert a == [a[0]] + a[1..] && b == [b[0]] + b[1..];
    }
  }

  lemma {:induction false} LexLeTransitive(a: string, b: string, c: string)
    requires LexLe(a, b) && LexLe(b, c)
    ensures LexLe(a, c)
  {
    if |a| > 0 && |b| > 0 && |c| > 0 && a[0] == b[0] && b[0] == c[0] {
      LexLeTransitive(a[1..], b[1..], c[1..]);
    }
  }

  predicate Sorted(s: seq<string>) {
    forall i, j | 0 <= i < j < |s| :: LexLe(s[i], s[j])
  }

  /** Insert `x` into a sorted list, before the first element it does not
      exceed. */
  function Insert(x: string, s: seq<string>): (r: seq<string>)
    requires Sorted(s)
    ensures Sorted(r)
    ensures multiset(r) == multiset(s) + multiset{x}
  {
    if |s| == 0 then [x]
    else if LexLe(x, s[0]) then
      BelowHeadBelowAll(x, s);
      ConsSorted(x, s);
      [x] + s
    else
      var rest := Insert(x, s[1..]);
      assert s == [s[0]] + s[1..];
      LexLeTotal(x, s[0]);
      SortedTail(s);
      HeadBelowInserted(x, s, rest);
      ConsSorted(s[0], rest);
      [s[0]] + rest
  }

  /** A value below the head of a sorted list is below all of it. */
  lemma BelowHeadBelowAll(x: string, s: seq<string>)
    requires Sorted(s) && |s| > 0 && LexLe(x, s[0])
    ensures forall j | 0 <= j < |s| :: LexLe(x, s[j])
  {
    forall j | 0 < j < |s| ensures LexLe(x, s[j]) {
      LexLeTransitive(x, s[0], s[j]);
    }
  }

  /** Putting a value below every element in front keeps a list sorted. */
  lemma ConsSorted(x: string, s: seq<string>)
    requires Sorted(s) && forall j | 0 <= j < |s| :: LexLe(x, s[j])
    ensures Sorted([x] + s)
  {
    var r := [x] + s;
    forall i, j | 0 <= i < j < |r| ensures LexLe(r[i], r[j]) {
      assert r[j] == s[j - 1];
      if i > 0 {
        assert r[i] == s[i - 1];
      }
    }
  }

  /** The head of a sorted list is below every element of its tail with a
      larger value inserted. */
  lemma HeadBelowInserted(x: string, s: seq<string>, rest: seq<string>)
    requires Sorted(s) && |s| > 0 && LexLe(s[0], x)
    requires multiset(rest) == multiset(s[1..]) + multiset{x}
    ensures forall j | 0 <= j < |rest| :: LexLe(s[0], rest[j])
  {
    forall j | 0 <= j < |rest| ensures LexLe(s[0], rest[j]) {
      assert rest[j] in multiset(rest);
      if rest[j] != x {
        assert rest[j] in multiset(s[1..]);
        var k :| 0 <= k < |s[1..]| && s[1..][k] == rest[j];
        assert s[k + 1] == rest[j];
      }
    }
  }

  /** `test_methods.sort()`: an insertion sort into code-point order. */
  function SortIds(s: seq<string>): (r: seq<string>)
    ensures Sorted(r)
    ensures multiset(r) == multiset(s)
  {
    if |s| == 0 then []
    else
      assert s == [s[0]] + s[1..];
      Insert(s[0], SortIds(s[1..]))
  }

  /** There is one sorted arrangement of a multiset of ids: the saved list
      does not depend on the order in which the sets were enumerated. */
  lemma {:induction false} SortedUnique(a: seq<string>, b: seq<string>)
    requires Sorted(a) && Sorted(b) && multiset(a) == multiset(b)
    ensures a == b
    decreases |a|
  {
    if |a| > 0 {
      assert |b| > 0 by {
        assert a[0] in multiset(b);
      }
      SortedHeads(a, b);
      assert multiset(a[1..]) == multiset(b[1..]) by {
        TailMultiset(a);
        TailMultiset(b);
      }
      SortedTail(a);
      SortedTail(b);
      SortedUnique(a[1..], b[1..]);
      assert a == [a[0]] + a[1..] && b == [b[0]] + b[1..];
    }
  }

  /** Two sorted arrangements of one multiset start with the same id. */
  lemma SortedHeads(a: seq<string>, b: seq<string>)
    requires Sorted(a) && Sorted(b) && multiset(a) == multiset(b) && |a| > 0 && |b| > 0
    ensures a[0] == b[0]
  {
    assert a[0] in multiset(b) && b[0] in multiset(a);
    var i :| 0 <= i < |b| && b[i] == a[0];
    var k :| 0 <= k < |a| && a[k] == b[0];
    if i > 0 { assert LexLe(b[0], b[i]); } else { LexLeReflexive(b[0]); }
    if k > 0 { assert LexLe(a[0], a[k]); } else { LexLeReflexive(a[0]); }
    LexLeAntisymmetric(a[0], b[0]);
  }

  lemma TailMultiset(a: seq<string>)
    requires |a| > 0
    ensures multiset(a[1..]) == multiset(a) - multiset{a[0]}
  {
    assert a == [a[0]] + a[1..];
  }

  lemma SortedTail(a: seq<string>)
    requires Sorted(a) && |a| > 0
    ensures Sorted(a[1..])
  {
    forall i, j | 0 <= i < j < |a[1..]| ensures LexLe(a[1..][i], a[1..][j]) {
      assert a[1..][i] == a[i + 1] && a[1..][j] == a[j + 1];
    }
  }

  lemma {:induction false} LexLeReflexive(a: string)
    ensures LexLe(a, a)
  {
    if |a| > 0 {
      LexLeReflexive(a[1..]);
    }
  }

  /** `main` of the collector: the gathered ids, sorted. */
  function CollectSortedIds(dirs: seq<seq<TestCase>>): (r: seq<string>)
    ensures Sorted(r) && multiset(r) == multiset(GatherIds(dirs))
  {
    SortIds(GatherIds(dirs))
  }

  /** `main` of the helper script: the gathered ids as gathered, each id
      once per directory that reports it, in directory order. */
  function CollectIdsUnsorted(dirs: seq<seq<TestCase>>): (r: seq<string>)
    ensures forall s :: s in r <==> exists k | 0 <= k < |dirs| :: s in IdsOf(dirs[k])
    ensures forall s :: multiset(r)[s] == |Reporting(dirs, s)|
    ensures forall k | 0 <= k < |dirs| ::
              r == GatherIds(dirs[..k]) + CollectReportedMethods(dirs[k]) + GatherIds(dirs[k + 1..])
  {
    GatherCountAll(dirs);
    GatherIds(dirs)
  }

  lemma GatherCountAll(dirs: seq<seq<TestCase>>)
    ensures forall s :: multiset(GatherIds(dirs))[s] == |Reporting(dirs, s)|
    ensures forall k | 0 <= k < |dirs| ::
              GatherIds(dirs) == GatherIds(dirs[..k]) + CollectReportedMethods(dirs[k]) + GatherIds(dirs[k + 1..])
  {
    forall s ensures multiset(GatherIds(dirs))[s] == |Reporting(dirs, s)| {
      GatherCount(dirs, s);
    }
    forall k | 0 <= k < |dirs|
      ensures GatherIds(dirs) == GatherIds(dirs[..k]) + CollectReportedMethods(dirs[k]) + GatherIds(dirs[k + 1..])
    {
      DirectoryBlock(dirs, k);
    }
  }
}
