/** Unit-test selection: the callers of the call graph that are unit tests. */
module UnitTests {
  import opened Common
  import opened MethodId

  /** A unit test lives in a class whose name ends with `Test` and has a
      name starting with `test`. */
  predicate IsUnitTest(m: Method) {
    IsSuffix("Test", m.className) && IsPrefix("test", m.funcName)
  }

  /** The selection loop of `collect_unit_test_method` over the callers of
      the graph, in their order: it keeps exactly the unit tests. */
  function SelectUnitTests(callers: seq<Method>): (r: seq<Method>)
    ensures forall m :: m in r <==> m in callers && IsUnitTest(m)
    ensures |r| <= |callers|
    ensures NoDuplicates(callers) ==> NoDuplicates(r)
  {
    if |callers| == 0 then []
    else
      var rest := SelectUnitTests(callers[1..]);
      assert forall m :: m in callers <==> m == callers[0] || m in callers[1..];
      if IsUnitTest(callers[0]) then [callers[0]] + rest else rest
  }

  /** The selection keeps the callers' order: selecting from two stretches
      of callers is selecting from each in turn. */
  lemma {:induction false} SelectConcat(a: seq<Method>, b: seq<Method>)
    ensures SelectUnitTests(a + b) == SelectUnitTests(a) + SelectUnitTests(b)
  {
    if |a| > 0 {
      assert (a + b)[1..] == a[1..] + b && (a + b)[0] == a[0];
      SelectConcat(a[1..], b);
    } else {
      assert a + b == b;
    }
  }
}
