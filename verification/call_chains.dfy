/** The call-chain extraction pipeline: build the call graph from the log,
    pick the unit tests, derive the project prefix from their classes, and
    record the call tree of every unit test. */
module CallChains {
  import opened Common
  import opened MethodId
  import opened Records
  import opened CallGraph
  import opened UnitTests
  import opened CommonPrefix
  import opened Traversal
  import opened TraversalProps

  /** The compute branch of `construct_call_entry_mapping`: the list that
      `construct_ut_call_tree` builds for every unit test, keyed by the
      test. */
  method BuildCallEntries(g: CallMap, prefix: string, uts: seq<Method>) returns (entries: map<Method, seq<CallEntry>>)
    ensures forall ut :: ut in entries <==> ut in uts
    ensures forall ut | ut in entries :: entries[ut] == CallTree(g, prefix, ut)
    ensures forall ut | ut in entries :: IsCallTreeOf(g, prefix, ut, entries[ut])
  {
    entries := map[];
    var k := 0;
    while k < |uts|
      invariant k <= |uts|
      invariant forall ut :: ut in entries <==> ut in uts[..k]
      invariant forall ut | ut in entries :: entries[ut] == CallTree(g, prefix, ut)
      invariant forall ut | ut in entries :: IsCallTreeOf(g, prefix, ut, entries[ut])
    {
      entries := entries[uts[k] := CallTree(g, prefix, uts[k])];
      assert uts[..k + 1] == uts[..k] + [uts[k]];
      k := k + 1;
    }
    assert uts[..k] == uts;
  }

  /** `get_call_chains`, with the module-level project prefix returned
      instead of assigned. A malformed call record aborts the run. On
      success the project prefix is the longest common prefix of the unit
      tests' classes (`""` when there is no unit test), and every unit test
      of the graph, and nothing else, maps to the list the walk builds for
      it. */
  method GetCallChains(lines: seq<string>) returns (r: Result<(string, map<Method, seq<CallEntry>>), ParseError>)
    ensures r.Ok? <==> Build(lines).Ok?
    ensures r.Err? ==> r.error == Build(lines).error
    ensures r.Ok? ==>
              var g := Build(lines).value;
              var (prefix, entries) := r.value;
              var uts := SelectUnitTests(g.callers);
              && (|uts| == 0 ==> prefix == "")
              && (|uts| > 0 ==> IsLongestCommonPrefix(prefix, ClassNames(uts)))
              && (forall ut :: ut in entries <==> ut in g.edges && IsUnitTest(ut))
              && (forall ut | ut in entries :: IsPrefix(prefix, ut.className))
              && (forall ut | ut in entries :: entries[ut] == CallTree(g.edges, prefix, ut))
              && (forall ut | ut in entries :: IsCallTreeOf(g.edges, prefix, ut, entries[ut]))
  {
    match Build(lines)
    case Err(e) =>
      return Err(e);
    case Ok(g) =>
      var uts := SelectUnitTests(g.callers);
      var prefix := ExtractProjectPrefix(uts);
      var entries := BuildCallEntries(g.edges, prefix, uts);
      forall ut | ut in entries ensures IsPrefix(prefix, ut.className) {
        var i :| 0 <= i < |uts| && uts[i] == ut;
      }
      return Ok((prefix, entries));
  }
}
