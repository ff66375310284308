/** The call tree of a unit test: a depth-first walk of the call graph from
    the test that records every project method it reaches, once, with the
    depth at which the walk first met it. */
module Traversal {
  import opened Common
  import opened MethodId

  /** `CallEnry`: a reached method and its call depth below the test. */
  datatype CallEntry = CallEntry(callee: Method, level: nat)

  /** The call graph as the traversal sees it: caller to callee list. */
  type CallMap = map<Method, seq<Method>>

  /** The methods `m` calls; a method absent from the map calls nothing. */
  function Succ(g: CallMap, m: Method): seq<Method> {
    if m in g then g[m] else []
  }

  /** The traversal only follows methods whose class starts with the
      project prefix. */
  predicate Allowed(prefix: string, m: Method) {
    IsPrefix(prefix, m.className)
  }

  /** The methods recorded so far, in order. */
  function Callees(es: seq<CallEntry>): (r: seq<Method>)
    ensures |r| == |es|
    ensures forall i | 0 <= i < |es| :: r[i] == es[i].callee
  {
    seq(|es|, i requires 0 <= i < |es| => es[i].callee)
  }

  /** Every method some caller of the graph calls. */
  ghost function Universe(g: CallMap): set<Method> {
    set m, c | m in g && c in g[m] :: c
  }

  ghost function Seen(es: seq<CallEntry>): set<Method> {
    set i | 0 <= i < |es| :: es[i].callee
  }

  /** Recording a callee not recorded yet shrinks the set of methods the
      walk may still record: the measure of the mutual recursion. */
  lemma Grows(g: CallMap, root: Method, idx: nat, depth: nat, entries: seq<CallEntry>)
    requires root in g && idx < |g[root]| && g[root][idx] !in Callees(entries)
    ensures Universe(g) - Seen(entries + [CallEntry(g[root][idx], depth)]) < Universe(g) - Seen(entries)
  {
    var callee := g[root][idx];
    assert callee in g[root];
    assert forall i | 0 <= i < |entries| :: Callees(entries)[i] != callee;
    SeenAppend(entries, CallEntry(callee, depth));
  }

  lemma SeenAppend(es: seq<CallEntry>, e: CallEntry)
    ensures Seen(es + [e]) == Seen(es) + {e.callee}
  {
    var s := es + [e];
    assert s[|es|] == e;
    forall x | x in Seen(es) ensures x in Seen(s) {
      var i :| 0 <= i < |es| && es[i].callee == x;
      assert s[i] == es[i];
    }
  }

  /** `r` is `es` with entries appended. */
  predicate Extends(es: seq<CallEntry>, r: seq<CallEntry>) {
    |es| <= |r| && forall i | 0 <= i < |es| :: r[i] == es[i]
  }

  /** `traverse_ut_call_tree`: the entries after visiting `root` at the
      given depth. A method outside the graph calls nothing. */
  function Traverse(g: CallMap, prefix: string, root: Method, depth: nat, entries: seq<CallEntry>): (r: seq<CallEntry>)
    ensures Extends(entries, r)
    ensures Seen(entries) <= Seen(r)
    decreases Universe(g) - Seen(entries), 1, 0
  {
    if root !in g then entries else VisitCallees(g, prefix, root, 0, depth, entries)
  }

  /** The `for callee in ...` loop of `traverse_ut_call_tree`, from the
      callee at position `idx` on: a callee already recorded or outside the
      project is skipped; any other is recorded at the current depth and
      visited one level deeper before the loop moves on. */
  function VisitCallees(g: CallMap, prefix: string, root: Method, idx: nat, depth: nat, entries: seq<CallEntry>): (r: seq<CallEntry>)
    requires root in g && idx <= |g[root]|
    ensures Extends(entries, r)
    ensures Seen(entries) <= Seen(r)
    decreases Universe(g) - Seen(entries), 0, |g[root]| - idx
  {
    if idx == |g[root]| then entries
    else
      var callee := g[root][idx];
      if callee in Callees(entries) || !Allowed(prefix, callee) then
        VisitCallees(g, prefix, root, idx + 1, depth, entries)
      else
        var grown := entries + [CallEntry(callee, depth)];
        Grows(g, root, idx, depth, entries);
        var after := Traverse(g, prefix, callee, depth + 1, grown);
        VisitCallees(g, prefix, root, idx + 1, depth, after)
  }
}
